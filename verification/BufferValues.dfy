/**
 The offset/length buffer of VecBuffer.hpp as a value, over a vector that
 several buffers may share, and the integers that are read from it.
 */
module BufferValues {

  type Byte = b: int | 0 <= b < 256

  // ----- the buffer as a value -----

  /** The shared vector, and the part of it this buffer can read. */
  datatype Buf = Buf(bytes: seq<Byte>, offset: nat, len: nat) {

    predicate Fits() {
      offset + len <= |bytes|
    }

    /** The readable bytes. */
    function Contents(): seq<Byte>
      requires Fits()
    {
      bytes[offset..offset + len]
    }

    function WrittableSize(): nat
      requires Fits()
    {
      |bytes| - (offset + len)
    }
  }

  function MarkRead(b: Buf, size: nat): Buf
    requires size <= b.len
  {
    b.(offset := b.offset + size, len := b.len - size)
  }

  /** Copies `data` to the writable end and marks it written. */
  function Append(b: Buf, data: seq<Byte>): Buf
    requires b.Fits() && |data| <= b.WrittableSize()
  {
    var at := b.offset + b.len;
    Buf(b.bytes[..at] + data + b.bytes[at + |data|..], b.offset, b.len + |data|)
  }

  function Zeros(n: nat): (s: seq<Byte>)
    ensures |s| == n && forall i :: 0 <= i < n ==> s[i] == 0
  {
    seq(n, _ => 0)
  }

  function Enlarge(b: Buf, size: nat): Buf {
    b.(bytes := b.bytes + Zeros(size))
  }

  /** Makes room for `size` bytes from the offset on. */
  function Ensure(b: Buf, size: nat): Buf {
    if size + b.offset > |b.bytes| then b.(bytes := b.bytes + Zeros(size + b.offset - |b.bytes|)) else b
  }

  /** Every operation leaves the vector as it is up to the end of the readable part. */
  predicate KeepsPrefix(b: Buf, b': Buf) {
    && b.Fits() && b'.Fits()
    && b.offset + b.len <= b'.offset + b'.len
    && b.offset <= b'.offset
    && b'.bytes[..b.offset + b.len] == b.bytes[..b.offset + b.len]
  }

  lemma AppendContents(b: Buf, data: seq<Byte>)
    requires b.Fits() && |data| <= b.WrittableSize()
    ensures KeepsPrefix(b, Append(b, data))
    ensures Append(b, data).Contents() == b.Contents() + data
    ensures |Append(b, data).bytes| == |b.bytes|
  {}

  lemma GrowContents(b: Buf, size: nat)
    requires b.Fits()
    ensures KeepsPrefix(b, Enlarge(b, size)) && KeepsPrefix(b, Ensure(b, size))
    ensures Enlarge(b, size).Contents() == b.Contents() == Ensure(b, size).Contents()
    ensures Enlarge(b, size).WrittableSize() == b.WrittableSize() + size
    ensures size >= b.len ==> Ensure(b, size).WrittableSize() >= size - b.len
    ensures |Ensure(b, size).bytes| == if size + b.offset > |b.bytes| then size + b.offset else |b.bytes|
  {}

  lemma MarkReadContents(b: Buf, size: nat)
    requires b.Fits() && size <= b.len
    ensures KeepsPrefix(b, MarkRead(b, size))
    ensures MarkRead(b, size).Contents() == b.Contents()[size..]
    ensures MarkRead(b, size).WrittableSize() == b.WrittableSize()
  {}

  // ----- pieces split off a parent, over every run -----

  datatype Piece = Piece(offset: nat, len: nat)

  /** A parent buffer and the pieces split off it so far. */
  datatype Family = Family(parent: Buf, pieces: seq<Piece>)

  datatype Op =
    | DoAppend(data: seq<Byte>)
    | DoRead(size: nat)
    | DoSplit(size: nat)
    | DoEnlarge(size: nat)
    | DoEnsure(size: nat)

  /** A step of the parent. An operation that its assertion would stop, and a
      split of more than is readable, leave the family as it is. */
  function Step(f: Family, op: Op): Family
    requires f.parent.Fits()
  {
    match op
    case DoAppend(data) =>
      if |data| <= f.parent.WrittableSize() then f.(parent := Append(f.parent, data)) else f
    case DoRead(size) =>
      if size <= f.parent.len then f.(parent := MarkRead(f.parent, size)) else f
    case DoSplit(size) =>
      if size <= f.parent.len
      then Family(MarkRead(f.parent, size), f.pieces + [Piece(f.parent.offset, size)])
      else f
    case DoEnlarge(size) => f.(parent := Enlarge(f.parent, size))
    case DoEnsure(size) => f.(parent := Ensure(f.parent, size))
  }

  predicate InOrder(f: Family) {
    && f.parent.Fits()
    && (forall i :: 0 <= i < |f.pieces| ==> f.pieces[i].offset + f.pieces[i].len <= f.parent.offset)
    && (forall i, j :: 0 <= i < j < |f.pieces| ==> f.pieces[i].offset + f.pieces[i].len <= f.pieces[j].offset)
  }

  /** The bytes of a piece. */
  function BytesOf(f: Family, i: nat): seq<Byte>
    requires i < |f.pieces| && InOrder(f)
  {
    f.parent.bytes[f.pieces[i].offset..f.pieces[i].offset + f.pieces[i].len]
  }

  lemma StepInOrder(f: Family, op: Op)
    requires InOrder(f)
    ensures InOrder(Step(f, op)) && KeepsPrefix(f.parent, Step(f, op).parent)
    ensures f.pieces <= Step(f, op).pieces
  {
    match op
    case DoAppend(data) => if |data| <= f.parent.WrittableSize() { AppendContents(f.parent, data); }
    case DoRead(size) => if size <= f.parent.len { MarkReadContents(f.parent, size); }
    case DoSplit(size) => if size <= f.parent.len { MarkReadContents(f.parent, size); }
    case DoEnlarge(size) => GrowContents(f.parent, size);
    case DoEnsure(size) => GrowContents(f.parent, size);
  }

  /** A piece gets the first readable bytes, and the parent keeps the others. */
  lemma SplitContents(f: Family, size: nat)
    requires InOrder(f) && size <= f.parent.len
    ensures var g := Step(f, DoSplit(size));
      && InOrder(g) && |g.pieces| == |f.pieces| + 1
      && BytesOf(g, |f.pieces|) == f.parent.Contents()[..size]
      && g.parent.Contents() == f.parent.Contents()[size..]
  {
    StepInOrder(f, DoSplit(size));
    MarkReadContents(f.parent, size);
    var o := f.parent.offset;
    assert f.parent.bytes[o..o + f.parent.len][..size] == f.parent.bytes[o..o + size];
  }

  /** What the other operations do to the readable bytes and the room; one that
      its assertion would stop does nothing. */
  lemma StepContents(f: Family, op: Op)
    requires InOrder(f) && !op.DoSplit?
    ensures var c, g := f.parent.Contents(), Step(f, op);
      g.pieces == f.pieces &&
      match op
      case DoAppend(data) =>
        if |data| <= f.parent.WrittableSize() then g.parent.Contents() == c + data else g == f
      case DoRead(size) => if size <= |c| then g.parent.Contents() == c[size..] else g == f
      case DoSplit(_) => true
      case DoEnlarge(size) =>
        g.parent.Contents() == c && g.parent.WrittableSize() == f.parent.WrittableSize() + size
      case DoEnsure(size) =>
        g.parent.Contents() == c && (size >= |c| ==> g.parent.WrittableSize() >= size - |c|)
  {
    StepInOrder(f, op);
    match op
    case DoAppend(data) => if |data| <= f.parent.WrittableSize() { AppendContents(f.parent, data); }
    case DoRead(size) => if size <= f.parent.len { MarkReadContents(f.parent, size); }
    case DoSplit(_) =>
    case DoEnlarge(size) => GrowContents(f.parent, size);
    case DoEnsure(size) => GrowContents(f.parent, size);
  }

  function Run(f: Family, ops: seq<Op>): (f': Family)
    requires InOrder(f)
    ensures InOrder(f')
    decreases ops
  {
    if ops == [] then f else
      StepInOrder(f, ops[0]);
      Run(Step(f, ops[0]), ops[1..])
  }

  lemma PieceKept(f: Family, f': Family, i: nat)
    requires InOrder(f) && InOrder(f') && KeepsPrefix(f.parent, f'.parent)
    requires f.pieces <= f'.pieces && i < |f.pieces|
    ensures f'.pieces[i] == f.pieces[i] && BytesOf(f', i) == BytesOf(f, i)
  {
    var p := f.pieces[i];
    var n := f.parent.offset + f.parent.len;
    assert f.parent.bytes[..n][p.offset..p.offset + p.len] == f'.parent.bytes[..n][p.offset..p.offset + p.len];
    assert BytesOf(f, i) == f.parent.bytes[..n][p.offset..p.offset + p.len];
    assert BytesOf(f', i) == f'.parent.bytes[..n][p.offset..p.offset + p.len];
  }

  /** A piece keeps its place and its bytes over every later run of the parent. */
  lemma {:induction false} PiecesKeepBytes(f: Family, ops: seq<Op>, i: nat)
    requires InOrder(f) && i < |f.pieces|
    ensures i < |Run(f, ops).pieces| && Run(f, ops).pieces[i] == f.pieces[i]
    ensures BytesOf(Run(f, ops), i) == BytesOf(f, i)
    decreases ops
  {
    if ops != [] {
      StepInOrder(f, ops[0]);
      PieceKept(f, Step(f, ops[0]), i);
      PiecesKeepBytes(Step(f, ops[0]), ops[1..], i);
    }
  }

  /** Over every run of a new buffer, pieces and parent stay inside the vector
      and no byte is in two pieces, or in a piece and the parent. */
  lemma {:induction false} PiecesDisjoint(size: nat, ops: seq<Op>, i: nat, j: nat, at: nat)
    requires i < |Run(Family(Buf(Zeros(size), 0, 0), []), ops).pieces|
    requires j < |Run(Family(Buf(Zeros(size), 0, 0), []), ops).pieces|
    ensures var f := Run(Family(Buf(Zeros(size), 0, 0), []), ops);
      var p, q := f.pieces[i], f.pieces[j];
      && p.offset + p.len <= |f.parent.bytes| && f.parent.offset + f.parent.len <= |f.parent.bytes|
      && (p.offset <= at < p.offset + p.len ==> at < f.parent.offset)
      && (p.offset <= at < p.offset + p.len && q.offset <= at < q.offset + q.len ==> i == j)
  {}

  // ----- big-endian integers -----

  function Be16(x: nat): (s: seq<Byte>)
    requires x < 0x1_0000
    ensures |s| == 2
  {
    [x / 256, x % 256]
  }

  function Be32(x: nat): (s: seq<Byte>)
    requires x < 0x1_0000_0000
    ensures |s| == 4
  {
    [x / 0x100_0000, x / 0x1_0000 % 256, x / 256 % 256, x % 256]
  }

  function FromBe16(s: seq<Byte>): (x: nat)
    requires |s| >= 2
    ensures x < 0x1_0000
  {
    var x: int := s[0];
    x * 256 + s[1]
  }

  function FromBe32(s: seq<Byte>): (x: nat)
    requires |s| >= 4
    ensures x < 0x1_0000_0000
  {
    var x: int := s[0];
    ((x * 256 + s[1]) * 256 + s[2]) * 256 + s[3]
  }

  lemma Be16RoundTrip(x: nat)
    requires x < 0x1_0000
    ensures FromBe16(Be16(x)) == x
  {}

  lemma Be32RoundTrip(x: nat)
    requires x < 0x1_0000_0000
    ensures FromBe32(Be32(x)) == x
  {
    var x1, x2, x3 := x / 256, x / 0x1_0000, x / 0x100_0000;
    assert x2 == x1 / 256 && x3 == x2 / 256;
    assert x == x1 * 256 + x % 256;
    assert x1 == x2 * 256 + x1 % 256;
    assert x2 == x3 * 256 + x2 % 256;
  }

  /** A number read into a signed integer of `modulus / 2` magnitude. */
  function Signed(x: nat, modulus: nat): int
    requires x < modulus
  {
    if 2 * x >= modulus then x - modulus else x
  }

  /** A signed number stored in an unsigned field. */
  function Unsigned(x: int, modulus: nat): (y: nat)
    requires 0 <= 2 * x + modulus && 2 * x < modulus
    ensures y < modulus && Signed(y, modulus) == x
  {
    if x < 0 then x + modulus else x
  }
}
