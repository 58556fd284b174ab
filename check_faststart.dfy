/**
 * The box walker of scripts/check-faststart.js. An MP4 file is a sequence of boxes (atoms),
 * each starting with the header of section 4.2 of ISO/IEC 14496-12: a 32-bit big-endian size,
 * a four-character type, and, when the size is 1, a 64-bit big-endian `largesize`; a size of 0
 * means the box runs to the end of the file. A file is "faststart" when its `moov` box comes
 * before its `mdat` box.
 *
 * The file is its sequence of bytes; reading past its end yields zero bytes, as the
 * zero-filled `Buffer.alloc` does when `fs.readSync` reads short.
 */
module CheckFaststart {

  type Byte = b: int | 0 <= b < 256

  /** The unsigned big-endian number the bytes spell. */
  function BigEndian(bytes: seq<Byte>): nat
  {
    if bytes == [] then 0
    else BigEndian(bytes[..|bytes| - 1]) * 256 + bytes[|bytes| - 1]
  }

  function Power256(k: nat): (p: nat)
    ensures p >= 1
  {
    if k == 0 then 1 else 256 * Power256(k - 1)
  }

  /** The `k` bytes of `n` in big-endian order. */
  function Encode(n: nat, k: nat): (bytes: seq<Byte>)
    ensures |bytes| == k
  {
    if k == 0 then [] else Encode(n / 256, k - 1) + [n % 256]
  }

  /** Reading back what was encoded: `readUInt32BE` and `readBigUInt64BE` invert the encoding. */
  lemma {:induction false} BigEndianEncode(n: nat, k: nat)
    requires n < Power256(k)
    ensures BigEndian(Encode(n, k)) == n
  {
    if k > 0 {
      var bytes := Encode(n, k);
      assert bytes[..k - 1] == Encode(n / 256, k - 1);
      BigEndianEncode(n / 256, k - 1);
    }
  }

  /** `k` zero bytes: what `Buffer.alloc(k)` holds before anything is read into it. */
  function Zeros(k: nat): (z: seq<Byte>)
    ensures |z| == k
  {
    if k == 0 then [] else [0] + Zeros(k - 1)
  }

  /** `len` bytes read from `pos` into a zero-filled buffer: the file's bytes, then zeros past its end. */
  function Padded(file: seq<Byte>, pos: nat, len: nat): (bytes: seq<Byte>)
    ensures |bytes| == len
  {
    if pos + len <= |file| then file[pos..pos + len]
    else if pos >= |file| then Zeros(len)
    else file[pos..] + Zeros(pos + len - |file|)
  }

  /** Byte `j` of the buffer is the file's byte at `pos + j` when there is one, and zero otherwise. */
  lemma PaddedMeans(file: seq<Byte>, pos: nat, len: nat, j: nat)
    requires j < len
    ensures pos + j < |file| ==> Padded(file, pos, len)[j] == file[pos + j]
    ensures pos + j >= |file| ==> Padded(file, pos, len)[j] == 0
  {
    if pos + len > |file| {
      if pos >= |file| {
        ZerosAreZero(len, j);
      } else if pos + j >= |file| {
        ZerosAreZero(pos + len - |file|, pos + j - |file|);
      }
    }
  }

  lemma {:induction false} ZerosAreZero(k: nat, j: nat)
    requires j < k
    ensures Zeros(k)[j] == 0
  {
    if j > 0 {
      ZerosAreZero(k - 1, j - 1);
    }
  }

  /** Zero bytes spell zero. */
  lemma {:induction false} BigEndianZeros(k: nat)
    ensures BigEndian(Zeros(k)) == 0
  {
    if k > 0 {
      BigEndianZeros(k - 1);
      ZerosAreZero(k, k - 1);
      assert Zeros(k)[..k - 1] == Zeros(k - 1) by {
        forall j | 0 <= j < k - 1
          ensures Zeros(k)[j] == Zeros(k - 1)[j]
        {
          ZerosAreZero(k, j);
          ZerosAreZero(k - 1, j);
        }
      }
    }
  }

  /** One recorded box: `{ type, offset, size }`. */
  datatype Atom = Atom(kind: string, offset: nat, size: nat)

  /** `header.slice(4, 8).toString('latin1')`: each byte is the character with that code. */
  function KindAt(file: seq<Byte>, offset: nat): (kind: string)
    requires offset + 8 <= |file|
    ensures |kind| == 4
  {
    [file[offset + 4] as char, file[offset + 5] as char, file[offset + 6] as char, file[offset + 7] as char]
  }

  /** Character `j` of the kind has the code of byte `4 + j` of the header. */
  lemma KindAtLatin1(file: seq<Byte>, offset: nat)
    requires offset + 8 <= |file|
    ensures forall j :: 0 <= j < 4 ==> KindAt(file, offset)[j] as int == file[offset + 4 + j]
  {
  }

  /** `readUInt32BE`: four bytes, most significant first. */
  function ReadUInt32BE(b: seq<Byte>): (n: nat)
    requires |b| == 4
    ensures n < 0x1_0000_0000
  {
    b[0] as int * 0x100_0000 + b[1] as int * 0x1_0000 + b[2] as int * 0x100 + b[3] as int
  }

  /** `readBigUInt64BE`: eight bytes, most significant first. */
  function ReadBigUInt64BE(b: seq<Byte>): (n: nat)
    requires |b| == 8
    ensures n < 0x1_0000_0000_0000_0000
  {
    b[0] as int * 0x100_0000_0000_0000 + b[1] as int * 0x1_0000_0000_0000 + b[2] as int * 0x100_0000_0000
    + b[3] as int * 0x1_0000_0000 + b[4] as int * 0x100_0000 + b[5] as int * 0x1_0000 + b[6] as int * 0x100 + b[7] as int
  }

  /** The value of the first `k` bytes, read most significant first, is the value of their prefixes shifted. */
  lemma BigEndianPrefix(b: seq<Byte>, k: nat)
    requires 0 < k <= |b|
    ensures BigEndian(b[..k]) == BigEndian(b[..k - 1]) * 256 + b[k - 1]
  {
    assert b[..k][..k - 1] == b[..k - 1];
  }

  /** `readUInt32BE` reads the big-endian number its bytes spell. */
  lemma UInt32IsBigEndian(b: seq<Byte>)
    requires |b| == 4
    ensures ReadUInt32BE(b) == BigEndian(b)
  {
    assert b[..0] == [];
    BigEndianPrefix(b, 1);
    BigEndianPrefix(b, 2);
    BigEndianPrefix(b, 3);
    BigEndianPrefix(b, 4);
    assert b[..4] == b;
  }

  /** `readBigUInt64BE` reads the big-endian number its bytes spell. */
  lemma UInt64IsBigEndian(b: seq<Byte>)
    requires |b| == 8
    ensures ReadBigUInt64BE(b) == BigEndian(b)
  {
    assert b[..0] == [];
    BigEndianPrefix(b, 1);
    BigEndianPrefix(b, 2);
    BigEndianPrefix(b, 3);
    BigEndianPrefix(b, 4);
    BigEndianPrefix(b, 5);
    BigEndianPrefix(b, 6);
    BigEndianPrefix(b, 7);
    BigEndianPrefix(b, 8);
    assert b[..8] == b;
  }

  /** The 32-bit size field of the header at `offset`. */
  function Size32(file: seq<Byte>, offset: nat): nat
    requires offset + 8 <= |file|
  {
    ReadUInt32BE(file[offset..offset + 4])
  }

  /** The 64-bit `largesize` after the header at `offset`. */
  function LargeSize(file: seq<Byte>, offset: nat): nat {
    ReadBigUInt64BE(Padded(file, offset + 8, 8))
  }

  /** The size `readAtoms` records for the box at `offset`: never zero. */
  function BoxSize(file: seq<Byte>, offset: nat): (size: nat)
    requires offset + 8 <= |file|
    ensures size > 0
  {
    var size := if Size32(file, offset) == 1 then LargeSize(file, offset) else Size32(file, offset);
    if size == 0 then |file| - offset else size
  }

  /** A header whose size field encodes `n > 1` gives a box of `n` bytes. */
  lemma BoxSizeOfHeader(file: seq<Byte>, offset: nat, n: nat)
    requires offset + 8 <= |file| && 1 < n < Power256(4)
    requires file[offset..offset + 4] == Encode(n, 4)
    ensures BoxSize(file, offset) == n
  {
    BigEndianEncode(n, 4);
    UInt32IsBigEndian(file[offset..offset + 4]);
  }

  /**
   * A size field of 0 makes the box run to the end of the file; so does a size field of 1
   * whose 8-byte header already reaches the end, as its `largesize` then reads as 0.
   */
  lemma BoxSizeToEnd(file: seq<Byte>, offset: nat)
    requires offset + 8 <= |file|
    requires file[offset..offset + 4] == Encode(0, 4)
      || (file[offset..offset + 4] == Encode(1, 4) && offset + 8 >= |file|)
    ensures BoxSize(file, offset) == |file| - offset
  {
    if file[offset..offset + 4] == Encode(0, 4) {
      BigEndianEncode(0, 4);
      UInt32IsBigEndian(file[offset..offset + 4]);
    } else {
      BigEndianEncode(1, 4);
      UInt32IsBigEndian(file[offset..offset + 4]);
      BigEndianZeros(8);
      UInt64IsBigEndian(Zeros(8));
    }
  }

  /** A header with size field 1 followed by a `largesize` encoding `n > 0` gives a box of `n` bytes. */
  lemma BoxSizeOfLargeHeader(file: seq<Byte>, offset: nat, n: nat)
    requires offset + 16 <= |file| && 0 < n < Power256(8)
    requires file[offset..offset + 4] == Encode(1, 4) && file[offset + 8..offset + 16] == Encode(n, 8)
    ensures BoxSize(file, offset) == n
  {
    BigEndianEncode(1, 4);
    UInt32IsBigEndian(file[offset..offset + 4]);
    assert Padded(file, offset + 8, 8) == file[offset + 8..offset + 16];
    BigEndianEncode(n, 8);
    UInt64IsBigEndian(file[offset + 8..offset + 16]);
  }

  /** The box whose header starts at `offset`. */
  function AtomAt(file: seq<Byte>, offset: nat): (atom: Atom)
    requires offset + 8 <= |file|
    ensures atom.offset == offset && atom.size > 0
  {
    Atom(KindAt(file, offset), offset, BoxSize(file, offset))
  }

  /** The boxes from `offset` on, as long as a full 8-byte header remains. */
  function AtomsFrom(file: seq<Byte>, offset: nat): (atoms: seq<Atom>)
    ensures atoms == [] <==> offset + 8 > |file|
    ensures atoms != [] ==> atoms[0].offset == offset && atoms[0].size > 0
    decreases |file| - offset
  {
    if offset + 8 > |file| then []
    else
      var atom := AtomAt(file, offset);
      [atom] + AtomsFrom(file, offset + atom.size)
  }

  /** The walk from `offset` is empty exactly when no full header is left, and otherwise starts at `offset`. */
  lemma AtomsFromStart(file: seq<Byte>, offset: nat)
    ensures AtomsFrom(file, offset) == [] <==> offset + 8 > |file|
    ensures AtomsFrom(file, offset) != [] ==> AtomsFrom(file, offset)[0] == AtomAt(file, offset)
  {
  }

  /** Box `i` of the walk is the box read from a full header at its own offset. */
  lemma {:induction false} AtomIsHeader(file: seq<Byte>, offset: nat, i: nat)
    requires i < |AtomsFrom(file, offset)|
    ensures AtomsFrom(file, offset)[i].offset + 8 <= |file|
    ensures AtomsFrom(file, offset)[i] == AtomAt(file, AtomsFrom(file, offset)[i].offset)
    decreases i
  {
    var atom := AtomAt(file, offset);
    var rest := AtomsFrom(file, offset + atom.size);
    assert AtomsFrom(file, offset) == [atom] + rest;
    if i > 0 {
      assert AtomsFrom(file, offset)[i] == rest[i - 1];
      AtomIsHeader(file, offset + atom.size, i - 1);
    }
  }

  /** Each box of the walk starts where the one before it ends. */
  lemma {:induction false} AtomsConsecutive(file: seq<Byte>, offset: nat, i: nat)
    requires i + 1 < |AtomsFrom(file, offset)|
    ensures AtomsFrom(file, offset)[i + 1].offset == AtomsFrom(file, offset)[i].offset + AtomsFrom(file, offset)[i].size
    decreases i
  {
    var atom := AtomAt(file, offset);
    var rest := AtomsFrom(file, offset + atom.size);
    assert AtomsFrom(file, offset) == [atom] + rest;
    assert AtomsFrom(file, offset)[i + 1] == rest[i];
    if i > 0 {
      AtomsConsecutive(file, offset + atom.size, i - 1);
      assert AtomsFrom(file, offset)[i] == rest[i - 1];
    } else {
      AtomsFromStart(file, offset + atom.size);
    }
  }

  /** The walk stops only when the last box ends less than a full header before the end of the file. */
  lemma {:induction false} AtomsStopShort(file: seq<Byte>, offset: nat)
    requires AtomsFrom(file, offset) != []
    ensures var atoms := AtomsFrom(file, offset);
      atoms[|atoms| - 1].offset + atoms[|atoms| - 1].size + 8 > |file|
    decreases |file| - offset
  {
    var atom := AtomAt(file, offset);
    var rest := AtomsFrom(file, offset + atom.size);
    assert AtomsFrom(file, offset) == [atom] + rest;
    if rest != [] {
      AtomsStopShort(file, offset + atom.size);
      assert AtomsFrom(file, offset)[|AtomsFrom(file, offset)| - 1] == rest[|rest| - 1];
    } else {
      assert offset + atom.size + 8 > |file|;
    }
  }

  /** Offsets strictly increase along the walk, so no two boxes share an offset. */
  lemma {:induction false} OffsetsIncrease(file: seq<Byte>, offset: nat, i: nat, j: nat)
    requires i < j < |AtomsFrom(file, offset)|
    ensures AtomsFrom(file, offset)[i].offset < AtomsFrom(file, offset)[j].offset
    decreases j
  {
    var atoms := AtomsFrom(file, offset);
    var k := j - 1;
    AtomsConsecutive(file, offset, k);
    AtomIsHeader(file, offset, k);
    if i < k {
      OffsetsIncrease(file, offset, i, k);
    }
  }

  /** Moving the next box from what is left to what is read keeps the whole walk. */
  lemma MoveToDone(done: seq<Atom>, atom: Atom, rest: seq<Atom>, all: seq<Atom>)
    requires done + ([atom] + rest) == all
    ensures (done + [atom]) + rest == all
  {
    assert (done + [atom]) + rest == done + ([atom] + rest);
  }

  /** `readAtoms(filePath)` over the file's bytes. */
  method ReadAtoms(file: seq<Byte>) returns (atoms: seq<Atom>)
    ensures atoms == AtomsFrom(file, 0)
  {
    ghost var all := AtomsFrom(file, 0);
    atoms := [];
    var offset: nat := 0;
    while offset < |file|
      invariant atoms + AtomsFrom(file, offset) == all
      decreases |file| - offset
    {
      if |file| - offset < 8 {
        break;
      }
      var atom := AtomAt(file, offset);
      MoveToDone(atoms, atom, AtomsFrom(file, offset + atom.size), all);
      atoms := atoms + [atom];
      offset := offset + atom.size;
    }
  }

  // ---------------------------------------------------------------- faststart

  /** Box `i` is the first of kind `kind`. */
  predicate FirstOfKindAt(atoms: seq<Atom>, kind: string, i: int) {
    0 <= i < |atoms| && atoms[i].kind == kind && forall j :: 0 <= j < i ==> atoms[j].kind != kind
  }

  /** The offset of the first box of kind `kind`, or -1. */
  function FirstOffset(atoms: seq<Atom>, kind: string): (r: int)
    ensures r >= -1
  {
    if atoms == [] then -1
    else if atoms[0].kind == kind then atoms[0].offset
    else FirstOffset(atoms[1..], kind)
  }

  /** -1 exactly when no box has the kind; otherwise the offset of the first box that has it. */
  lemma {:induction false} FirstOffsetMeans(atoms: seq<Atom>, kind: string)
    ensures FirstOffset(atoms, kind) == -1 <==> forall i :: 0 <= i < |atoms| ==> atoms[i].kind != kind
    ensures FirstOffset(atoms, kind) != -1 ==>
      exists i :: FirstOfKindAt(atoms, kind, i) && atoms[i].offset == FirstOffset(atoms, kind)
  {
    if atoms != [] && atoms[0].kind != kind {
      FirstOffsetMeans(atoms[1..], kind);
      var r := FirstOffset(atoms[1..], kind);
      assert forall i :: 1 <= i < |atoms| ==> atoms[i] == atoms[1..][i - 1];
      if r != -1 {
        var i :| FirstOfKindAt(atoms[1..], kind, i) && atoms[1..][i].offset == r;
        assert FirstOfKindAt(atoms, kind, i + 1);
      }
    } else if atoms != [] {
      assert FirstOfKindAt(atoms, kind, 0);
    }
  }

  lemma {:induction false} FirstOffsetSnoc(atoms: seq<Atom>, a: Atom, kind: string)
    ensures FirstOffset(atoms + [a], kind) ==
      if FirstOffset(atoms, kind) != -1 then FirstOffset(atoms, kind)
      else if a.kind == kind then a.offset else -1
  {
    if atoms != [] {
      assert (atoms + [a])[1..] == atoms[1..] + [a];
      FirstOffsetSnoc(atoms[1..], a, kind);
    }
  }

  /** One more box scanned: its offset becomes the first offset of its kind if none was found yet. */
  lemma FirstOffsetStep(atoms: seq<Atom>, i: nat, kind: string)
    requires i < |atoms|
    ensures FirstOffset(atoms[..i + 1], kind) ==
      if FirstOffset(atoms[..i], kind) == -1 && atoms[i].kind == kind then atoms[i].offset
      else FirstOffset(atoms[..i], kind)
  {
    assert atoms[..i + 1] == atoms[..i] + [atoms[i]];
    FirstOffsetSnoc(atoms[..i], atoms[i], kind);
  }

  /** The result of `checkFaststart`, without the printable atom list. */
  datatype Report = Report(moovOffset: int, mdatOffset: int, hasFaststart: bool, needsFix: bool)

  /** The `for (const atom of atoms)` loop of `checkFaststart`: the first `moov` and `mdat` offsets. */
  method ScanOffsets(atoms: seq<Atom>) returns (moovOffset: int, mdatOffset: int)
    ensures moovOffset == FirstOffset(atoms, "moov")
    ensures mdatOffset == FirstOffset(atoms, "mdat")
  {
    moovOffset, mdatOffset := -1, -1;
    for i := 0 to |atoms|
      invariant moovOffset == FirstOffset(atoms[..i], "moov")
      invariant mdatOffset == FirstOffset(atoms[..i], "mdat")
    {
      FirstOffsetStep(atoms, i, "moov");
      FirstOffsetStep(atoms, i, "mdat");
      if atoms[i].kind == "moov" && moovOffset == -1 {
        moovOffset := atoms[i].offset;
      }
      if atoms[i].kind == "mdat" && mdatOffset == -1 {
        mdatOffset := atoms[i].offset;
      }
    }
    assert atoms[..|atoms|] == atoms;
  }

  /** `checkFaststart(filePath)` over the file's bytes. */
  method CheckFaststart(file: seq<Byte>) returns (report: Report)
    ensures report.moovOffset == FirstOffset(AtomsFrom(file, 0), "moov")
    ensures report.mdatOffset == FirstOffset(AtomsFrom(file, 0), "mdat")
    ensures report.hasFaststart <==> report.moovOffset != -1 && report.mdatOffset != -1 && report.moovOffset < report.mdatOffset
    ensures report.needsFix <==> report.moovOffset != -1 && report.mdatOffset != -1 && report.mdatOffset < report.moovOffset
    ensures !(report.hasFaststart && report.needsFix)
  {
    var atoms := ReadAtoms(file);
    var moovOffset, mdatOffset := ScanOffsets(atoms);
    var hasMoov := moovOffset != -1;
    var hasMdat := mdatOffset != -1;
    var isFaststart := hasMoov && hasMdat && moovOffset < mdatOffset;
    if hasMoov && hasMdat {
      DistinctKindsDistinctOffsets(file);
    }
    report := Report(moovOffset, mdatOffset, isFaststart, hasMoov && hasMdat && !isFaststart);
  }

  /** A `moov` box and an `mdat` box never share an offset, so one of them comes first. */
  lemma DistinctKindsDistinctOffsets(file: seq<Byte>)
    ensures var atoms := AtomsFrom(file, 0);
      FirstOffset(atoms, "moov") != -1 && FirstOffset(atoms, "mdat") != -1 ==>
        FirstOffset(atoms, "moov") != FirstOffset(atoms, "mdat")
  {
    var atoms := AtomsFrom(file, 0);
    var moov := FirstOffset(atoms, "moov");
    var mdat := FirstOffset(atoms, "mdat");
    FirstOffsetMeans(atoms, "moov");
    FirstOffsetMeans(atoms, "mdat");
    if moov != -1 && mdat != -1 {
      var i :| FirstOfKindAt(atoms, "moov", i) && atoms[i].offset == moov;
      var k :| FirstOfKindAt(atoms, "mdat", k) && atoms[k].offset == mdat;
      assert i != k;
      if i < k {
        OffsetsIncrease(file, 0, i, k);
      } else {
        OffsetsIncrease(file, 0, k, i);
      }
    }
  }
}
