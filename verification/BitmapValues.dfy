/**
 The bitmap tree as a value: a stack of layers, root first. Bit `j` of a layer
 says whether word `j` of the layer below it still has a set bit; the bits of
 the last layer are the free slots.
 */
module BitmapValues {
  import opened Words

  /** What a layer stores: how many units it describes, and its words. */
  datatype Layer = Layer(size: nat, words: seq<Word>)

  /** A stack of layers: the root is the layer with no layer above it. */
  datatype Tree = NoLayer | Tree(up: Tree, leaf: Layer)

  const MAX_DEEP: nat := 8

  /** How many 64-bit words hold `size` bits. */
  function Lwords(size: nat): (n: nat)
    ensures 64 * n - 64 < size <= 64 * n
    ensures size > 1 ==> 0 < n < size
  {
    (size + 63) / 64
  }

  predicate On(l: Layer, n: nat)
    requires n < 64 * |l.words|
  {
    Bits(l.words[n / 64])[n % 64]
  }

  /** The words just cover the size, and no bit past the size is set. */
  ghost predicate LayerOk(l: Layer) {
    && |l.words| == Lwords(l.size)
    && forall n: nat :: l.size <= n < 64 * |l.words| ==> !On(l, n)
  }

  /** `up` summarises `down`: one bit a word, set exactly when the word is not 0. */
  ghost predicate Linked(up: Layer, down: Layer) {
    && up.size == |down.words|
    && up.size <= 64 * |up.words|
    && forall j: nat :: j < up.size ==> (On(up, j) <==> down.words[j] != 0)
  }

  /** Every layer is well formed and summarised by the one above it. */
  ghost predicate TreeOk(t: Tree) {
    match t
    case NoLayer => true
    case Tree(up, leaf) =>
      && LayerOk(leaf) && leaf.size >= 2 && TreeOk(up)
      && if up == NoLayer then |leaf.words| == 1 else Linked(up.leaf, leaf)
  }

  /** The slots whose leaf bit is set. */
  ghost function Free(t: Tree): set<nat>
    requires TreeOk(t)
  {
    if t == NoLayer then {} else OnBits(t.leaf)
  }

  ghost function OnBits(l: Layer): set<nat>
    requires LayerOk(l)
  {
    set n: nat | n < l.size && On(l, n)
  }

  /** The indices 0 to `size - 1`. */
  ghost function Below(size: nat): (s: set<nat>)
    ensures forall n: nat :: n in s <==> n < size
    ensures |s| == size
  {
    if size == 0 then {} else Below(size - 1) + {size - 1}
  }

  // ----- layers by number, the root being layer 0 -----

  function Depth(t: Tree): nat {
    match t
    case NoLayer => 0
    case Tree(up, _) => Depth(up) + 1
  }

  /** The `d` layers nearest the root. */
  function Top(t: Tree, d: nat): (top: Tree)
    requires d <= Depth(t)
    ensures Depth(top) == d
  {
    if d == Depth(t) then t else Top(t.up, d)
  }

  /** Layer number `k`. */
  function LayerAt(t: Tree, k: nat): Layer
    requires k < Depth(t)
  {
    Top(t, k + 1).leaf
  }

  lemma {:induction false} TopUp(t: Tree, d: nat)
    requires 0 < d <= Depth(t)
    ensures Top(t, d).up == Top(t, d - 1)
  {
    if d < Depth(t) {
      TopUp(t.up, d);
    }
  }

  lemma {:induction false} TopTop(t: Tree, d: nat, e: nat)
    requires e <= d <= Depth(t)
    ensures Top(Top(t, d), e) == Top(t, e)
  {
    if d < Depth(t) {
      TopTop(t.up, d, e);
    }
  }

  lemma {:induction false} TopOk(t: Tree, d: nat)
    requires TreeOk(t) && d <= Depth(t)
    ensures TreeOk(Top(t, d))
  {
    if d < Depth(t) {
      TopOk(t.up, d);
    }
  }

  // ----- one layer -----

  function WithWord(l: Layer, lwoff: nat, w: Word): Layer
    requires lwoff < |l.words|
  {
    l.(words := l.words[lwoff := w])
  }

  function SetInLayer(l: Layer, n: nat): Layer
    requires n < 64 * |l.words|
  {
    WithWord(l, n / 64, SetBit(l.words[n / 64], n % 64))
  }

  function ClearInLayer(l: Layer, n: nat): Layer
    requires n < 64 * |l.words|
  {
    WithWord(l, n / 64, ClearBit(l.words[n / 64], n % 64))
  }

  /** A layer and another that differs from it in the one bit `n` at most. */
  ghost predicate DiffersAt(l: Layer, l': Layer, n: nat, x: bool) {
    && l'.size == l.size && |l'.words| == |l.words| && n < 64 * |l.words|
    && (forall m: nat :: m < 64 * |l.words| ==> On(l', m) == if m == n then x else On(l, m))
    && (forall j: nat :: j < |l.words| && j != n / 64 ==> l'.words[j] == l.words[j])
  }

  lemma OneWordChanged(l: Layer, n: nat, w: Word, x: bool)
    requires n < 64 * |l.words|
    requires Bits(w) == Bits(l.words[n / 64])[n % 64 := x]
    ensures DiffersAt(l, WithWord(l, n / 64, w), n, x)
  {
    var l' := WithWord(l, n / 64, w);
    forall m: nat | m < 64 * |l.words|
      ensures On(l', m) == if m == n then x else On(l, m)
    {
      if m / 64 == n / 64 && m % 64 == n % 64 {
        assert m == n;
      }
    }
  }

  lemma SetInLayerAt(l: Layer, n: nat)
    requires n < 64 * |l.words|
    ensures DiffersAt(l, SetInLayer(l, n), n, true)
    ensures SetInLayer(l, n).words[n / 64] != 0
  {
    var w := l.words[n / 64];
    SetBitBits(w, n % 64);
    OneWordChanged(l, n, SetBit(w, n % 64), true);
    SetBitNonzero(w, n % 64);
  }

  lemma ClearInLayerAt(l: Layer, n: nat)
    requires n < 64 * |l.words|
    ensures DiffersAt(l, ClearInLayer(l, n), n, false)
    ensures l.words[n / 64] == 0 ==> ClearInLayer(l, n).words[n / 64] == 0
  {
    var w := l.words[n / 64];
    ClearBitBits(w, n % 64);
    OneWordChanged(l, n, ClearBit(w, n % 64), false);
    ClearBitOfZero(n % 64);
  }

  lemma LayerStaysOk(l: Layer, l': Layer, n: nat, x: bool)
    requires LayerOk(l) && n < l.size && DiffersAt(l, l', n, x)
    ensures LayerOk(l')
    ensures OnBits(l') == if x then OnBits(l) + {n} else OnBits(l) - {n}
  {
  }

  // ----- the upward walks -----

  /** `set` as the program has it, with a mask made from an `int`. */
  function SetAsWritten(l: Layer, n: nat): Layer
    requires n < 64 * |l.words|
  {
    WithWord(l, n / 64, Or(l.words[n / 64], IntMask(n % 64)))
  }

  predicate SetAsMeant(l: Layer, n: nat)
    requires n < 64 * |l.words|
  {
    SetAsWritten(l, n) == SetInLayer(l, n)
  }

  /** As it is written, `set` does what it should to every layer exactly for the
      last 31 units of a word. */
  lemma SetAsMeantExactly(size: nat, n: nat)
    requires n < size
    ensures (forall l: Layer :: LayerOk(l) && l.size == size ==> SetAsMeant(l, n)) <==> n % 64 >= 33
  {
    IntMaskCorrectExactly(n % 64);
    if n % 64 < 33 {
      var none := Layer(size, seq(Lwords(size), _ => 0));
      ZeroHasNoBits();
      OrZero(IntMask(n % 64));
      OrZero(OneShl(63 - n % 64));
      assert LayerOk(none);
      assert SetAsWritten(none, n).words[n / 64] != SetInLayer(none, n).words[n / 64];
      assert !SetAsMeant(none, n);
    }
  }

  /** The index equal to the size passes the bound check of `set`: inside the
      words it marks a bit past the size. */
  lemma SetAtSizeBreaks(l: Layer)
    requires LayerOk(l) && l.size % 64 != 0
    ensures !LayerOk(SetInLayer(l, l.size))
  {
    SetInLayerAt(l, l.size);
    assert On(SetInLayer(l, l.size), l.size);
  }

  /** `n` is a unit of the last layer, and its word a unit of the layer above. */
  ghost predicate InRange(t: Tree, n: nat) {
    match t
    case NoLayer => true
    case Tree(up, leaf) => n < leaf.size <= 64 * |leaf.words| && InRange(up, n / 64)
  }

  /** `reset` from the last layer up, stopping at the first word left nonzero. */
  function ClearUp(t: Tree, n: nat): (t': Tree)
    requires InRange(t, n)
    ensures Depth(t') == Depth(t)
  {
    match t
    case NoLayer => NoLayer
    case Tree(up, leaf) =>
      var l := ClearInLayer(leaf, n);
      Tree(if l.words[n / 64] != 0 then up else ClearUp(up, n / 64), l)
  }

  /** `set` from the last layer up, stopping at the first word that was nonzero. */
  function SetUp(t: Tree, n: nat): (t': Tree)
    requires InRange(t, n)
    ensures Depth(t') == Depth(t)
  {
    match t
    case NoLayer => NoLayer
    case Tree(up, leaf) =>
      var l := SetInLayer(leaf, n);
      Tree(if leaf.words[n / 64] != 0 then up else SetUp(up, n / 64), l)
  }

  lemma {:induction false} LeafInRange(t: Tree, n: nat)
    requires TreeOk(t) && (t != NoLayer ==> n < t.leaf.size)
    ensures InRange(t, n)
  {
    if t != NoLayer {
      LeafInRange(t.up, n / 64);
    }
  }

  // ----- the upward set with the mask as it is written -----

  /** `bitTurnback` as the program has it. */
  function SetUpAsWritten(t: Tree, n: nat): (t': Tree)
    requires InRange(t, n)
  {
    match t
    case NoLayer => NoLayer
    case Tree(up, leaf) =>
      Tree(if leaf.words[n / 64] != 0 then up else SetUpAsWritten(up, n / 64), SetAsWritten(leaf, n))
  }

  /** The mask turns on the one bit it should in every layer that is reached. */
  predicate AllRight(t: Tree, n: nat)
    requires InRange(t, n)
  {
    match t
    case NoLayer => true
    case Tree(up, leaf) =>
      && RightBit(leaf.words[n / 64], n % 64)
      && (leaf.words[n / 64] == 0 ==> AllRight(up, n / 64))
  }

  /** As it is written, turning back a slot in use does what it should exactly
      when the mask is right in every layer reached. */
  lemma {:induction false} SetUpAsWrittenExactly(t: Tree, n: nat)
    requires TreeOk(t) && InRange(t, n) && (t != NoLayer ==> !On(t.leaf, n))
    ensures SetUpAsWritten(t, n) == SetUp(t, n) <==> AllRight(t, n)
    decreases t
  {
    if t != NoLayer {
      var w := t.leaf.words[n / 64];
      IntMaskRight(w, n % 64);
      assert SetAsWritten(t.leaf, n).words[n / 64] == Or(w, IntMask(n % 64));
      assert SetInLayer(t.leaf, n).words[n / 64] == SetBit(w, n % 64);
      if w == 0 {
        SetUpAsWrittenExactly(t.up, n / 64);
      }
    }
  }

  lemma FirstMaskReaches(w: Word)
    ensures Bits(Or(w, IntMask(0)))[32]
  {
    WideMask();
    OnesShlBit(31, 32);
    OrBit(w, OnesShl(31), 32);
  }

  lemma RootBreaks(t: Tree)
    requires TreeOk(t) && t != NoLayer && t.leaf.size <= 32 && InRange(t, 0)
    ensures !TreeOk(SetUpAsWritten(t, 0))
  {
    FirstMaskReaches(t.leaf.words[0]);
    var leaf' := SetAsWritten(t.leaf, 0);
    assert On(leaf', 32);
    assert !LayerOk(leaf');
  }

  /** Slot 63 has the right mask, but when its word was 0 the walk goes on to bit
      0 of the layer above, whose mask reaches past a layer of 32 units. */
  lemma Slot63BreaksTree(t: Tree)
    requires TreeOk(t) && t != NoLayer && t.up != NoLayer
    requires t.up.leaf.size <= 32 && t.leaf.words[0] == 0
    ensures InRange(t, 63) && RightBit(t.leaf.words[0], 63)
    ensures !TreeOk(SetUpAsWritten(t, 63))
  {
    LeafInRange(t, 63);
    RootBreaks(t.up);
  }

  lemma LinkedStays(up: Layer, down: Layer, down': Layer, n: nat, x: bool)
    requires Linked(up, down) && DiffersAt(down, down', n, x)
    requires down.words[n / 64] != 0 && down'.words[n / 64] != 0
    ensures Linked(up, down')
  {}

  lemma LinkedMoves(up: Layer, up': Layer, down: Layer, down': Layer, n: nat, x: bool)
    requires Linked(up, down) && DiffersAt(down, down', n, x) && DiffersAt(up, up', n / 64, x)
    requires down'.words[n / 64] != 0 <==> x
    ensures Linked(up', down')
  {}

  /** Trees that agree in their first `d` layers agree in each of them. */
  lemma SameTop(t: Tree, t': Tree, d: nat)
    requires d <= Depth(t) && d <= Depth(t') && Top(t, d) == Top(t', d)
    ensures forall k: nat :: k < d ==> LayerAt(t, k) == LayerAt(t', k)
  {
    forall k: nat | k < d
      ensures LayerAt(t, k) == LayerAt(t', k)
    {
      TopTop(t, d, k + 1);
      TopTop(t', d, k + 1);
    }
  }

  /** One level of the upward reset, seen from the whole tree. */
  lemma ClearLevel(t: Tree, t': Tree, i: nat, n: nat)
    requires i < Depth(t) == Depth(t')
    requires InRange(Top(t, i + 1), n) && Top(t', i + 1) == ClearUp(Top(t, i + 1), n)
    ensures n < LayerAt(t, i).size <= 64 * |LayerAt(t, i).words| && LayerAt(t', i) == ClearInLayer(LayerAt(t, i), n)
    ensures LayerAt(t', i).words[n / 64] != 0 ==> forall k: nat :: k < i ==> LayerAt(t, k) == LayerAt(t', k)
    ensures LayerAt(t', i).words[n / 64] == 0 ==>
      InRange(Top(t, i), n / 64) && Top(t', i) == ClearUp(Top(t, i), n / 64)
  {
    TopUp(t, i + 1);
    TopUp(t', i + 1);
    if LayerAt(t', i).words[n / 64] != 0 { SameTop(t, t', i); }
  }

  /** One level of the upward set, seen from the whole tree. */
  lemma SetLevel(t: Tree, t': Tree, i: nat, n: nat)
    requires i < Depth(t) == Depth(t')
    requires InRange(Top(t, i + 1), n) && Top(t', i + 1) == SetUp(Top(t, i + 1), n)
    ensures n < LayerAt(t, i).size <= 64 * |LayerAt(t, i).words| && LayerAt(t', i) == SetInLayer(LayerAt(t, i), n)
    ensures LayerAt(t, i).words[n / 64] != 0 ==> forall k: nat :: k < i ==> LayerAt(t, k) == LayerAt(t', k)
    ensures LayerAt(t, i).words[n / 64] == 0 ==>
      InRange(Top(t, i), n / 64) && Top(t', i) == SetUp(Top(t, i), n / 64)
  {
    TopUp(t, i + 1);
    TopUp(t', i + 1);
    if LayerAt(t, i).words[n / 64] != 0 { SameTop(t, t', i); }
  }

  /** One step of an upward walk: the last layer has changed in bit `n`, and the
      layers above are either right already or changed in bit `n / 64`. */
  lemma WalkStep(t: Tree, up: Tree, l: Layer, n: nat, x: bool)
    requires TreeOk(t) && t != NoLayer && n < t.leaf.size && DiffersAt(t.leaf, l, n, x)
    requires TreeOk(up) && (up == NoLayer <==> t.up == NoLayer)
    requires
      || (up == t.up && t.leaf.words[n / 64] != 0 && l.words[n / 64] != 0)
      || ((l.words[n / 64] != 0 <==> x)
          && (up != NoLayer ==> DiffersAt(t.up.leaf, up.leaf, n / 64, x)))
    ensures TreeOk(Tree(up, l))
    ensures Free(Tree(up, l)) == if x then Free(t) + {n} else Free(t) - {n}
  {
    LayerStaysOk(t.leaf, l, n, x);
    if up != NoLayer {
      if up == t.up && t.leaf.words[n / 64] != 0 && l.words[n / 64] != 0 {
        LinkedStays(up.leaf, t.leaf, l, n, x);
      } else {
        LinkedMoves(t.up.leaf, up.leaf, t.leaf, l, n, x);
      }
    }
  }

  /** Clearing a leaf upward keeps the summary, although it stops early. */
  lemma {:induction false} ClearUpOk(t: Tree, n: nat)
    requires TreeOk(t) && t != NoLayer && n < t.leaf.size
    ensures InRange(t, n)
    ensures TreeOk(ClearUp(t, n)) && ClearUp(t, n) != NoLayer
    ensures DiffersAt(t.leaf, ClearUp(t, n).leaf, n, false)
    ensures Free(ClearUp(t, n)) == Free(t) - {n}
  {
    LeafInRange(t, n);
    ClearInLayerAt(t.leaf, n);
    var t' := ClearUp(t, n);
    if t'.leaf.words[n / 64] == 0 && t.up != NoLayer {
      ClearUpOk(t.up, n / 64);
    }
    WalkStep(t, t'.up, t'.leaf, n, false);
  }

  /** Setting a leaf upward keeps the summary, although it stops early. */
  lemma {:induction false} SetUpOk(t: Tree, n: nat)
    requires TreeOk(t) && t != NoLayer && n < t.leaf.size
    ensures InRange(t, n)
    ensures TreeOk(SetUp(t, n)) && SetUp(t, n) != NoLayer
    ensures DiffersAt(t.leaf, SetUp(t, n).leaf, n, true)
    ensures Free(SetUp(t, n)) == Free(t) + {n}
  {
    LeafInRange(t, n);
    SetInLayerAt(t.leaf, n);
    var t' := SetUp(t, n);
    if t.leaf.words[n / 64] == 0 && t.up != NoLayer {
      SetUpOk(t.up, n / 64);
    }
    WalkStep(t, t'.up, t'.leaf, n, true);
  }

  // ----- the descent -----

  /** The first set bit of a word of a layer, -1 when the word is 0. */
  function FirstIn(l: Layer, lw: nat): int {
    if lw >= |l.words| || l.words[lw] == 0 then -1 else 64 * lw + Clz(l.words[lw])
  }

  /** The descent from the root: in each layer the first set bit of the word
      names the word of the next layer to look at; -1 when a word is 0. */
  function Descend(t: Tree): int {
    match t
    case NoLayer => 0
    case Tree(up, leaf) =>
      var lw := Descend(up);
      if lw < 0 then -1 else FirstIn(leaf, lw)
  }

  /** `n` is the lowest set bit of the layer. */
  ghost predicate IsLowest(l: Layer, n: int) {
    && LayerOk(l) && 0 <= n < l.size && On(l, n)
    && forall m: nat :: m < n ==> !On(l, m)
  }

  lemma NoBitInZeroWord(l: Layer, m: nat)
    requires m < 64 * |l.words| && l.words[m / 64] == 0
    ensures !On(l, m)
  {
    ZeroWord(l.words[m / 64]);
  }

  lemma FirstInWord(l: Layer, lw: nat)
    requires LayerOk(l) && lw < |l.words| && l.words[lw] != 0
    requires forall j: nat :: j < lw ==> l.words[j] == 0
    ensures IsLowest(l, 64 * lw + Clz(l.words[lw]))
  {
    var c := Clz(l.words[lw]);
    var n := 64 * lw + c;
    assert n / 64 == lw && n % 64 == c;
    assert On(l, n);
    forall m: nat | m < n
      ensures !On(l, m)
    {
      if m / 64 == lw {
        assert Bits(l.words[lw])[..c][m % 64] == Bits(l.words[lw])[m % 64];
      } else {
        NoBitInZeroWord(l, m);
      }
    }
  }

  /** No bit of the layer is set. */
  ghost predicate AllOff(l: Layer) {
    LayerOk(l) && forall m: nat :: m < 64 * |l.words| ==> !On(l, m)
  }

  lemma ZeroWordsAllOff(l: Layer)
    requires LayerOk(l) && forall j: nat :: j < |l.words| ==> l.words[j] == 0
    ensures AllOff(l)
  {
    forall m: nat | m < 64 * |l.words|
      ensures !On(l, m)
    {
      NoBitInZeroWord(l, m);
    }
  }

  lemma RootStep(root: Layer)
    requires LayerOk(root) && |root.words| == 1
    ensures if AllOff(root) then FirstIn(root, 0) == -1 else IsLowest(root, FirstIn(root, 0))
  {
    if root.words[0] == 0 {
      ZeroWordsAllOff(root);
    } else {
      FirstInWord(root, 0);
      assert !AllOff(root);
    }
  }

  lemma StepBelow(up: Layer, down: Layer, lw: nat)
    requires LayerOk(down) && Linked(up, down) && IsLowest(up, lw)
    ensures IsLowest(down, FirstIn(down, lw)) && !AllOff(down)
  {
    FirstInWord(down, lw);
  }

  lemma AllOffBelow(up: Layer, down: Layer)
    requires LayerOk(down) && Linked(up, down) && AllOff(up)
    ensures AllOff(down)
  {
    ZeroWordsAllOff(down);
  }

  /** The descent fails only when no slot is free, for any number of layers, and
      otherwise ends on the lowest free slot. */
  lemma {:induction false} DescendFindsLowest(t: Tree)
    requires TreeOk(t) && t != NoLayer
    ensures if AllOff(t.leaf) then Descend(t) == -1 else IsLowest(t.leaf, Descend(t))
  {
    if t.up == NoLayer {
      RootStep(t.leaf);
    } else {
      DescendFindsLowest(t.up);
      if AllOff(t.up.leaf) {
        AllOffBelow(t.up.leaf, t.leaf);
      } else {
        StepBelow(t.up.leaf, t.leaf, Descend(t.up));
      }
    }
  }

  /** What one level of the descent relies on, and what it leads to. */
  ghost predicate LevelSound(t: Tree, i: nat)
    requires i < Depth(t)
  {
    var lw, off := Descend(Top(t, i)), Descend(Top(t, i + 1));
    lw >= 0 ==>
      && lw < |LayerAt(t, i).words|
      && off == FirstIn(LayerAt(t, i), lw)
      && (off >= 0 ==> off < LayerAt(t, i).size && off / 64 == lw)
      && (off < 0 ==> Descend(t) == -1)
  }

  /** One level of the descent, seen from the whole tree. */
  lemma DescendLevel(t: Tree, i: nat)
    requires TreeOk(t) && i < Depth(t)
    ensures LevelSound(t, i)
  {
    TopUp(t, i + 1);
    TopOk(t, i + 1);
    TopOk(t, i);
    DescendFindsLowest(Top(t, i + 1));
    if i > 0 { DescendFindsLowest(Top(t, i)); }
    if 0 <= Descend(Top(t, i)) && Descend(Top(t, i + 1)) < 0 { DescendStaysFailed(t, i + 1); }
  }

  /** A descent that failed in one layer has failed. */
  lemma {:induction false} DescendStaysFailed(t: Tree, d: nat)
    requires d <= Depth(t) && Descend(Top(t, d)) < 0
    ensures Descend(t) == -1
  {
    if d < Depth(t) {
      DescendStaysFailed(t.up, d);
    }
  }

  /** What `bitRequire` does to the tree: the slot it returns and the new tree.
      A tree without layers has every bit "found" at offset 0. */
  function Acquire(t: Tree): (res: (int, Tree))
    requires TreeOk(t)
  {
    var r := Descend(t);
    if r < 0 || t == NoLayer then (r, t)
    else
      DescendFindsLowest(t);
      LeafInRange(t, r);
      (r, ClearUp(t, r))
  }

  /** `bitRequire` refines "take the minimum of the free set". */
  lemma AcquireTakesMinimum(t: Tree)
    requires TreeOk(t) && t != NoLayer
    ensures TreeOk(Acquire(t).1) && Acquire(t).1 != NoLayer && Acquire(t).1.leaf.size == t.leaf.size
    ensures Free(t) == {} ==> Acquire(t) == (-1, t)
    ensures Free(t) != {} ==>
      && Acquire(t).0 in Free(t)
      && (forall m :: m in Free(t) ==> Acquire(t).0 <= m)
      && Free(Acquire(t).1) == Free(t) - {Acquire(t).0}
  {
    DescendFindsLowest(t);
    var r := Descend(t);
    if AllOff(t.leaf) {
      assert Free(t) == {};
    } else {
      assert r in Free(t);
      ClearUpOk(t, r);
    }
  }

  /** What `bitTurnback` does to the tree. */
  function GiveBack(t: Tree, idx: nat): Tree
    requires TreeOk(t)
  {
    if t == NoLayer || idx >= t.leaf.size then t
    else
      LeafInRange(t, idx);
      SetUp(t, idx)
  }

  lemma GiveBackOk(t: Tree, idx: nat)
    requires TreeOk(t) && t != NoLayer && idx < t.leaf.size
    ensures TreeOk(GiveBack(t, idx)) && GiveBack(t, idx) != NoLayer
    ensures GiveBack(t, idx).leaf.size == t.leaf.size
    ensures Free(GiveBack(t, idx)) == Free(t) + {idx}
  {
    SetUpOk(t, idx);
  }

  /** Turning back the slot just required restores the free set. */
  lemma TurnbackUndoesAcquire(t: Tree)
    requires TreeOk(t) && t != NoLayer && Free(t) != {}
    ensures Acquire(t).0 >= 0 && TreeOk(Acquire(t).1)
    ensures TreeOk(GiveBack(Acquire(t).1, Acquire(t).0))
    ensures Free(GiveBack(Acquire(t).1, Acquire(t).0)) == Free(t)
  {
    AcquireTakesMinimum(t);
    GiveBackOk(Acquire(t).1, Acquire(t).0);
  }

  // ----- a fresh tree -----

  /** A layer with all its `size` bits set and the tail of the last word masked. */
  function FullLayer(size: nat): Layer
    requires size > 0
  {
    Layer(size, seq(Lwords(size), (j: nat) => FullWord(size, j)))
  }

  function FullWord(size: nat, j: nat): Word {
    if size % 64 != 0 && j + 1 == Lwords(size) then TailWord(size % 64) else ALL_ONES
  }

  lemma FullWordBits(size: nat, n: nat)
    requires n < 64 * Lwords(size)
    ensures Bits(FullWord(size, n / 64))[n % 64] <==> n < size
    ensures FullWord(size, n / 64) != 0
  {
    if size % 64 != 0 && n / 64 + 1 == Lwords(size) {
      TailWordBits(size % 64, n % 64);
      TailWordBits(size % 64, 0);
      ZeroWord(TailWord(size % 64));
    } else {
      AllOnesBit(n % 64);
    }
  }

  lemma FullLayerOk(size: nat)
    requires size > 0
    ensures LayerOk(FullLayer(size))
    ensures forall n: nat :: n < size ==> On(FullLayer(size), n)
    ensures forall j: nat :: j < Lwords(size) ==> FullLayer(size).words[j] != 0
  {
    var l := FullLayer(size);
    forall n: nat | n < 64 * Lwords(size)
      ensures On(l, n) <==> n < size
    {
      FullWordBits(size, n);
    }
    forall j: nat | j < Lwords(size)
      ensures l.words[j] != 0
    {
      FullWordBits(size, 64 * j);
    }
  }

  /** The layers the constructor stacks up for `size` slots. */
  function FullTree(size: nat): Tree {
    if size <= 1 then NoLayer else Tree(FullTree(Lwords(size)), FullLayer(size))
  }

  /** A fresh tree has one root word and exactly the slots below `size` free. */
  lemma {:induction false} FullTreeOk(size: nat)
    ensures TreeOk(FullTree(size))
    ensures FullTree(size) == NoLayer <==> size <= 1
    ensures size >= 2 ==> Free(FullTree(size)) == Below(size)
  {
    if size >= 2 {
      FullTreeOk(Lwords(size));
      FullLayerOk(size);
      if Lwords(size) > 1 {
        FullLayerOk(Lwords(size));
      }
    }
  }

  function Pow64(d: nat): (p: nat)
    ensures p > 0
  {
    if d == 0 then 1 else 64 * Pow64(d - 1)
  }

  /** `d` layers are enough for 64^d slots, so 8 layers are for 64^8. */
  lemma {:induction false} DepthBound(size: nat, d: nat)
    requires size <= Pow64(d)
    ensures Depth(FullTree(size)) <= d
  {
    if size >= 2 {
      DepthBound(Lwords(size), d - 1);
    }
  }

  // ----- every run of requires and turn-backs -----

  datatype Op = Require | Turnback(idx: nat)

  /** The allocator and the slots its callers hold. */
  datatype Pool = Pool(tree: Tree, held: set<nat>)

  ghost predicate PoolOk(p: Pool, size: nat) {
    && TreeOk(p.tree)
    && if size <= 1 then p.tree == NoLayer else
         && p.tree != NoLayer && p.tree.leaf.size == size
         && Free(p.tree) !! p.held
         && Free(p.tree) + p.held == Below(size)
  }

  /** One call. A caller turns back only what it holds. */
  ghost function Step(p: Pool, op: Op): Pool
    requires TreeOk(p.tree)
  {
    match op
    case Require =>
      var (r, t) := Acquire(p.tree);
      if r >= 0 then Pool(t, p.held + {r}) else p
    case Turnback(idx) =>
      if idx in p.held then Pool(GiveBack(p.tree, idx), p.held - {idx}) else p
  }

  /** Free and held slots trade one slot and still make up `all`. */
  lemma OneSlotMoves(free: set<nat>, held: set<nat>, all: set<nat>, r: nat)
    requires free !! held && free + held == all && r in all
    ensures (free - {r}) + (held + {r}) == all && (free + {r}) + (held - {r}) == all
  {}

  lemma RequireOk(p: Pool, size: nat)
    requires PoolOk(p, size) && size >= 2
    ensures PoolOk(Step(p, Require), size)
  {
    var free := Free(p.tree);
    AcquireTakesMinimum(p.tree);
    if free != {} {
      OneSlotMoves(free, p.held, Below(size), Acquire(p.tree).0);
    }
  }

  lemma TurnbackOk(p: Pool, idx: nat, size: nat)
    requires PoolOk(p, size) && size >= 2
    ensures PoolOk(Step(p, Turnback(idx)), size)
  {
    if idx in p.held {
      OneSlotMoves(Free(p.tree), p.held, Below(size), idx);
      GiveBackOk(p.tree, idx);
    }
  }

  lemma StepOk(p: Pool, op: Op, size: nat)
    requires PoolOk(p, size)
    ensures PoolOk(Step(p, op), size)
  {
    if size >= 2 {
      match op
      case Require => RequireOk(p, size);
      case Turnback(idx) => TurnbackOk(p, idx, size);
    }
  }

  ghost function Run(size: nat, ops: seq<Op>): (p: Pool)
    ensures PoolOk(p, size)
  {
    if ops == [] then
      FullTreeOk(size);
      Pool(FullTree(size), {})
    else
      var p := Run(size, ops[..|ops| - 1]);
      StepOk(p, ops[|ops| - 1], size);
      Step(p, ops[|ops| - 1])
  }

  /** After any run held and free slots are disjoint and add up to `size`. */
  lemma RunConserves(size: nat, ops: seq<Op>)
    requires size >= 2
    ensures TreeOk(Run(size, ops).tree)
    ensures Free(Run(size, ops).tree) !! Run(size, ops).held
    ensures |Free(Run(size, ops).tree)| + |Run(size, ops).held| == size
  {
    var p := Run(size, ops);
    assert Free(p.tree) + p.held == Below(size);
  }

  /** That many calls of `bitRequire`. */
  function Requires(k: nat): seq<Op> {
    seq(k, _ => Require)
  }

  lemma OneMoreRequire(k: nat)
    requires k > 0
    ensures Requires(k) == Requires(k - 1) + [Require]
  {}

  lemma RunOneMore(size: nat, ops: seq<Op>, op: Op)
    ensures Run(size, ops + [op]) == Step(Run(size, ops), op)
  {
    assert (ops + [op])[..|ops|] == ops;
  }

  lemma LeastLeft(free: set<nat>, size: nat, k: nat, r: nat)
    requires k < size && free !! Below(k) && free + Below(k) == Below(size)
    requires r in free && forall m :: m in free ==> r <= m
    ensures Below(k) + {r} == Below(k + 1)
  {
    assert k in Below(size);
    assert r in free + Below(k);
  }

  lemma NextInOrder(p: Pool, size: nat, k: nat)
    requires PoolOk(p, size) && k < size && 2 <= size && p.held == Below(k)
    ensures Step(p, Require).held == Below(k + 1)
  {
    AcquireTakesMinimum(p.tree);
    assert k in Below(size);
    LeastLeft(Free(p.tree), size, k, Acquire(p.tree).0);
  }

  /** A fresh tree hands out its slots in order. */
  lemma {:induction false} RequiresInOrder(size: nat, k: nat)
    requires 2 <= size && k <= size
    ensures Run(size, Requires(k)).held == Below(k)
    decreases k
  {
    if k == 0 {
      assert Requires(0) == [];
    } else {
      RequiresInOrder(size, k - 1);
      OneMoreRequire(k);
      RunOneMore(size, Requires(k - 1), Require);
      NextInOrder(Run(size, Requires(k - 1)), size, k - 1);
    }
  }

  /** The first `k` units of the layer are off. */
  ghost predicate FirstOff(l: Layer, k: nat)
    requires LayerOk(l)
  {
    forall n: nat :: n < k ==> n !in OnBits(l)
  }

  lemma FirstWordOff(l: Layer)
    requires LayerOk(l) && 64 <= l.size && FirstOff(l, 64)
    ensures l.words[0] == 0
  {
    forall b: nat | b < 64
      ensures !Bits(l.words[0])[b]
    {
      assert b !in OnBits(l);
      assert !On(l, b);
    }
    ZeroWord(l.words[0]);
  }

  lemma TwoLayers(t: Tree)
    requires TreeOk(t) && t != NoLayer && 65 <= t.leaf.size
    ensures t.up != NoLayer && t.up.leaf.size == Lwords(t.leaf.size)
  {}

  lemma HeldSlotsOff(p: Pool, size: nat, k: nat)
    requires PoolOk(p, size) && 2 <= size && p.held == Below(k)
    ensures FirstOff(p.tree.leaf, k)
  {
    forall n: nat | n < k
      ensures n !in OnBits(p.tree.leaf)
    {
      assert n in p.held;
    }
  }

  lemma FirstWordTaken(t: Tree)
    requires TreeOk(t) && t != NoLayer && 65 <= t.leaf.size <= 2048 && FirstOff(t.leaf, 64)
    ensures InRange(t, 63) && !TreeOk(SetUpAsWritten(t, 63))
  {
    FirstWordOff(t.leaf);
    TwoLayers(t);
    Slot63BreaksTree(t);
  }

  /** The run that shows it: after 64 requires on a tree of 65 to 2048 slots,
      turning back slot 63 as it is written breaks the tree. */
  lemma TurnbackBreaksTree(size: nat)
    requires 65 <= size <= 2048
    ensures var p := Run(size, Requires(64));
      63 in p.held && InRange(p.tree, 63) && !TreeOk(SetUpAsWritten(p.tree, 63))
  {
    RequiresInOrder(size, 64);
    HeldSlotsOff(Run(size, Requires(64)), size, 64);
    FirstWordTaken(Run(size, Requires(64)).tree);
  }

  /** The next slot handed out is one nobody holds. */
  ghost predicate NextIsNew(size: nat, ops: seq<Op>) {
    Acquire(Run(size, ops).tree).0 !in Run(size, ops).held
  }

  /** No run ever hands a slot out twice exactly when the tree has at least two
      slots: a tree of size 0 or 1 has no layer, and hands out slot 0 for ever. */
  lemma NoSlotHeldTwiceExactly(size: nat)
    ensures (forall ops :: NextIsNew(size, ops)) <==> size >= 2
  {
    if size >= 2 {
      forall ops
        ensures NextIsNew(size, ops)
      {
        AcquireTakesMinimum(Run(size, ops).tree);
      }
    } else {
      var ops := [Require];
      assert ops[..0] == [];
      assert Run(size, []) == Pool(NoLayer, {});
      assert Run(size, ops) == Pool(NoLayer, {0});
      assert !NextIsNew(size, ops);
    }
  }
}
