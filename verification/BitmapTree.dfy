/**
 The hierarchical bitmap allocator of BitmapTree.cpp and BitmapTree.hpp, in
 place over arrays of 64-bit words, proved against the tree values of
 `BitmapValues`.
 */
module BitmapTrees {
  import opened Words
  import opened BitmapValues

  class BitmapLayer {
    const bits: array<Word>
    const lwords: nat
    const size: nat

    /** The layer holds the value `l`. */
    ghost predicate Shows(l: Layer)
      reads bits
    {
      l.size == size && l.words == bits[..] && lwords == bits.Length == Lwords(size)
    }

    /** All `size` bits set, the rest of the last word masked off. */
    constructor (size: nat)
      requires size > 0
      ensures fresh(bits)
      ensures this.size == size && Shows(FullLayer(size))
    {
      this.size := size;
      lwords := Lwords(size);
      var words := new Word[Lwords(size)](_ => ALL_ONES);
      if size % 64 != 0 {
        var last := words.Length - 1;
        words[last] := And(words[last], OnesShl(64 - size % 64));
      }
      bits := words;
      new;
      assert forall j: nat :: j < Lwords(size) ==> bits[j] == FullWord(size, j);
    }

    /** Sets a bit; reports whether its word was 0 before. An index past `size`
        is ignored; the index `size` itself passes the bound check, and is in the
        array unless the words are full. */
    method Set(bitIdx: nat, ghost l: Layer) returns (upApply: bool)
      requires Shows(l) && (bitIdx == size ==> size % 64 != 0)
      modifies bits
      ensures bitIdx > size ==> !upApply && Shows(l)
      ensures bitIdx <= size ==>
        Shows(SetInLayer(l, bitIdx)) && upApply == (l.words[bitIdx / 64] == 0)
    {
      if bitIdx > size {
        return false;
      }
      var lwoff := bitIdx / 64;
      upApply := bits[lwoff] == 0;
      bits[lwoff] := SetBit(bits[lwoff], bitIdx % 64);
    }

    /** Clears a bit; reports whether its word is 0 now. */
    method Reset(bitIdx: nat, ghost l: Layer) returns (upApply: bool)
      requires Shows(l) && (bitIdx == size ==> size % 64 != 0)
      modifies bits
      ensures bitIdx > size ==> !upApply && Shows(l)
      ensures bitIdx <= size ==>
        && Shows(ClearInLayer(l, bitIdx))
        && upApply == (ClearInLayer(l, bitIdx).words[bitIdx / 64] == 0)
    {
      if bitIdx > size {
        return false;
      }
      var lwoff := bitIdx / 64;
      bits[lwoff] := ClearBit(bits[lwoff], bitIdx % 64);
      upApply := bits[lwoff] == 0;
    }

    /** The index of the first set bit of a word, -1 when the word is 0. */
    method FirstBitSet(lwoff: nat, ghost l: Layer) returns (r: int)
      requires Shows(l) && lwoff != lwords
      ensures r == FirstIn(l, lwoff)
    {
      if lwoff > lwords {
        return -1;
      }
      if bits[lwoff] == 0 {
        return -1;
      }
      return 64 * lwoff + Clz(bits[lwoff]);
    }
  }

  /** Layers that share no storage and hold the layers of `t`, root first. */
  ghost predicate Show(ls: seq<BitmapLayer>, t: Tree)
    reads set l | l in ls :: l.bits
  {
    && |ls| == Depth(t)
    && (forall k :: 0 <= k < |ls| ==> ls[k].Shows(LayerAt(t, k)))
    && (forall i, j :: 0 <= i < j < |ls| ==> ls[i].bits != ls[j].bits)
  }

  /** The layers while an upward walk is at depth `d`: those nearer the root
      still hold `t`, the others hold `t'` already. */
  ghost predicate Mixed(ls: seq<BitmapLayer>, d: nat, t: Tree, t': Tree)
    reads set l | l in ls :: l.bits
  {
    && d <= |ls| == Depth(t) == Depth(t')
    && (forall k :: 0 <= k < d ==> ls[k].Shows(LayerAt(t, k)))
    && (forall k :: d <= k < |ls| ==> ls[k].Shows(LayerAt(t', k)))
    && (forall i, j :: 0 <= i < j < |ls| ==> ls[i].bits != ls[j].bits)
  }

  method LookInLayer(ls: seq<BitmapLayer>, i: nat, lw: nat, ghost t: Tree) returns (off: int)
    requires Show(ls, t) && i < Depth(t) && LevelSound(t, i) && lw == Descend(Top(t, i))
    ensures off == Descend(Top(t, i + 1))
    ensures off >= 0 ==> off < LayerAt(t, i).size && off / 64 == lw
    ensures off < 0 ==> Descend(t) == off
  {
    off := ls[i].FirstBitSet(lw, LayerAt(t, i));
  }

  method ResetLayer(ls: seq<BitmapLayer>, i: nat, n: nat, ghost t: Tree, ghost t': Tree) returns (upApply: bool)
    requires Mixed(ls, i + 1, t, t') && n < LayerAt(t, i).size
    requires n < 64 * |LayerAt(t, i).words| && LayerAt(t', i) == ClearInLayer(LayerAt(t, i), n)
    modifies ls[i].bits
    ensures Mixed(ls, i, t, t')
    ensures upApply == (LayerAt(t', i).words[n / 64] == 0)
  {
    upApply := ls[i].Reset(n, LayerAt(t, i));
  }

  method SetLayer(ls: seq<BitmapLayer>, i: nat, n: nat, ghost t: Tree, ghost t': Tree) returns (upApply: bool)
    requires Mixed(ls, i + 1, t, t') && n != LayerAt(t, i).size
    requires n < LayerAt(t, i).size ==>
      n < 64 * |LayerAt(t, i).words| && LayerAt(t', i) == SetInLayer(LayerAt(t, i), n)
    modifies ls[i].bits
    ensures n > LayerAt(t, i).size ==> !upApply && Mixed(ls, i + 1, t, t')
    ensures n < LayerAt(t, i).size ==>
      Mixed(ls, i, t, t') && upApply == (LayerAt(t, i).words[n / 64] == 0)
  {
    upApply := ls[i].Set(n, LayerAt(t, i));
  }

  /** The walk has reached layer `i`, where `n` is the bit to clear. */
  ghost predicate Clearing(t: Tree, t': Tree, i: nat, n: int) {
    && i < Depth(t) == Depth(t') && n >= 0
    && InRange(Top(t, i + 1), n) && Top(t', i + 1) == ClearUp(Top(t, i + 1), n)
  }

  /** The walk has reached layer `i`, where `n` is the bit to set, or to ignore
      when it is past the size. */
  ghost predicate Setting(t: Tree, t': Tree, i: nat, n: nat) {
    && i < Depth(t) == Depth(t')
    && if n > LayerAt(t, i).size then t' == t else
         InRange(Top(t, i + 1), n) && Top(t', i + 1) == SetUp(Top(t, i + 1), n)
  }

  /** The tree that turning back `n` leads to. */
  function SetGoal(t: Tree, n: nat): (t': Tree)
    requires t != NoLayer ==> n > t.leaf.size || InRange(t, n)
    ensures Depth(t') == Depth(t)
  {
    if t == NoLayer || n > t.leaf.size then t else SetUp(t, n)
  }

  lemma SettingStarts(t: Tree, n: nat)
    requires t != NoLayer && (n > t.leaf.size || InRange(t, n))
    ensures Setting(t, SetGoal(t, n), Depth(t) - 1, n)
  {}

  lemma MixedShows(ls: seq<BitmapLayer>, d: nat, t: Tree, t': Tree)
    requires Mixed(ls, d, t, t') && forall k: nat :: k < d ==> LayerAt(t, k) == LayerAt(t', k)
    ensures Show(ls, t')
  {}

  /** One turn of the upward loop of `bitRequire`. */
  method ResetStep(ls: seq<BitmapLayer>, i: nat, n: nat, ghost t: Tree, ghost t': Tree) returns (more: bool)
    requires Mixed(ls, i + 1, t, t') && Clearing(t, t', i, n)
    modifies ls[i].bits
    ensures more ==> Mixed(ls, i, t, t') && (i > 0 ==> Clearing(t, t', i - 1, n / 64))
    ensures !more ==> Show(ls, t')
  {
    ClearLevel(t, t', i, n);
    more := ResetLayer(ls, i, n, t, t');
    if !more {
      MixedShows(ls, i, t, t');
    }
  }

  /** One turn of the loop of `bitTurnback`. */
  method SetStep(ls: seq<BitmapLayer>, i: nat, n: nat, ghost t: Tree, ghost t': Tree) returns (more: bool, up: nat)
    requires Mixed(ls, i + 1, t, t') && Setting(t, t', i, n)
    modifies ls[i].bits
    ensures more ==> Mixed(ls, i, t, t') && (i > 0 ==> Setting(t, t', i - 1, up))
    ensures more && i == 0 ==> Show(ls, t')
    ensures !more ==> Show(ls, t')
  {
    up := n / 64;
    if n <= LayerAt(t, i).size {
      SetLevel(t, t', i, n);
    }
    more := SetLayer(ls, i, n, t, t');
    if !more && n > LayerAt(t, i).size {
      MixedShows(ls, i + 1, t, t');
    } else if !more || i == 0 {
      MixedShows(ls, i, t, t');
    }
  }

  /** The constructor's stack of layers, the one-word root on top. */
  method StackLayers(size: nat) returns (pile: seq<BitmapLayer>)
    ensures forall l :: l in pile ==> fresh(l.bits)
    ensures Show(pile, FullTree(size))
  {
    pile := [];
    var lsize := size;
    while lsize > 1
      invariant forall l :: l in pile ==> fresh(l.bits)
      invariant Depth(FullTree(size)) == Depth(FullTree(lsize)) + |pile|
      invariant Top(FullTree(size), Depth(FullTree(lsize))) == FullTree(lsize)
      invariant forall k :: 0 <= k < |pile| ==>
        pile[k].Shows(LayerAt(FullTree(size), Depth(FullTree(lsize)) + k))
      invariant forall i, j :: 0 <= i < j < |pile| ==> pile[i].bits != pile[j].bits
    {
      var layer := new BitmapLayer(lsize);
      TopUp(FullTree(size), Depth(FullTree(lsize)));
      pile := [layer] + pile;
      lsize := layer.lwords;
    }
  }

  /** A well-formed tree for `size` slots. */
  ghost predicate TreeFor(t: Tree, size: nat) {
    && TreeOk(t)
    && (t == NoLayer <==> size <= 1)
    && (t != NoLayer ==> t.leaf.size == size)
  }

  lemma FullTreeFits(size: nat, d: nat)
    requires size <= Pow64(d)
    ensures TreeFor(FullTree(size), size) && Depth(FullTree(size)) <= d
    ensures size >= 2 ==> Free(FullTree(size)) == Below(size)
  {
    DepthBound(size, d);
    FullTreeOk(size);
  }

  class BitmapTree {
    /** The layers in use, root first; the null pointers after them in the
        eight-entry table are left out. */
    const layers: seq<BitmapLayer>
    const deep: nat

    ghost const size: nat
    /** The value the layers in use hold. */
    ghost var tree: Tree

    ghost predicate Valid()
      reads this, set l | l in layers :: l.bits
    {
      && deep == |layers| <= MAX_DEEP
      && Show(layers, tree)
      && TreeFor(tree, size)
    }

    constructor (size: nat)
      requires size <= Pow64(8)
      ensures Valid() && (forall l :: l in layers ==> fresh(l.bits))
      ensures this.size == size && tree == FullTree(size)
      ensures size >= 2 ==> Free(tree) == Below(size)
    {
      var pile := StackLayers(size);
      FullTreeFits(size, MAX_DEEP);
      deep := |pile|;
      layers := pile;
      this.size := size;
      tree := FullTree(size);
    }

    /** Takes the lowest free slot, or returns -1 when there is none. A tree of
        size 0 or 1 has no layer and answers 0 every time. */
    method BitRequire() returns (r: int)
      requires Valid() && size <= 0x8000_0000
      modifies `tree, set l | l in layers :: l.bits
      ensures Valid()
      ensures (r, tree) == Acquire(old(tree))
      ensures size <= 1 ==> r == 0
      ensures size >= 2 && Free(old(tree)) == {} ==> r == -1 && tree == old(tree)
      ensures size >= 2 && Free(old(tree)) != {} ==>
        && r in Free(old(tree))
        && (forall m :: m in Free(old(tree)) ==> r <= m)
        && Free(tree) == Free(old(tree)) - {r}
    {
      forall i: nat | i < Depth(tree)
        ensures LevelSound(tree, i)
      {
        DescendLevel(tree, i);
      }
      var lwOffs, bitsOffs := FindDownward();
      if tree != NoLayer { AcquireTakesMinimum(tree); }
      if lwOffs < 0 {
        return -1;
      }
      if tree != NoLayer { LeafInRange(tree, lwOffs); }
      ResetUpward(bitsOffs);
      return lwOffs;
    }

    /** The first `d` recorded offsets name, layer by layer, the words of one descent. */
    ghost predicate Offsets(bitsOffs: seq<int>, t: Tree, d: nat) {
      && d <= Depth(t) && d <= |bitsOffs|
      && (forall k :: 0 <= k < d ==> 0 <= bitsOffs[k] < LayerAt(t, k).size)
      && (forall j, k :: 0 <= j < k < d && k == j + 1 ==> bitsOffs[j] == bitsOffs[k] / 64)
    }

    lemma NextOffset(bitsOffs: seq<int>, t: Tree, d: nat, off: int)
      requires Offsets(bitsOffs, t, d) && d < Depth(t) && d < |bitsOffs|
      requires 0 <= off < LayerAt(t, d).size && (d > 0 ==> bitsOffs[d - 1] == off / 64)
      ensures Offsets(bitsOffs[d := off], t, d + 1)
    {
      var next := bitsOffs[d := off];
      forall k | 0 <= k < d + 1
        ensures 0 <= next[k] < LayerAt(t, k).size
      {
        assert k < d ==> next[k] == bitsOffs[k];
      }
      forall j, k | 0 <= j < k < d + 1 && k == j + 1
        ensures next[j] == next[k] / 64
      {
        assert k < d ==> bitsOffs[j] == bitsOffs[k] / 64;
      }
    }

    /** Having come down to layer `d`, `lwOffs` is the offset recorded last. */
    ghost predicate Down(bitsOffs: seq<int>, t: Tree, d: nat, lwOffs: int) {
      && Offsets(bitsOffs, t, d)
      && lwOffs == Descend(Top(t, d)) >= 0
      && (d > 0 ==> lwOffs == bitsOffs[d - 1])
    }

    /** One turn of the downward loop. */
    method StepDown(bitsOffs: seq<int>, i: nat, lwOffs: int) returns (off: int, bitsOffs': seq<int>)
      requires deep == |layers| && Show(layers, tree) && i < deep && i < |bitsOffs|
      requires Down(bitsOffs, tree, i, lwOffs) && LevelSound(tree, i)
      ensures |bitsOffs'| == |bitsOffs|
      ensures off < 0 ==> Descend(tree) == off
      ensures off >= 0 ==> Down(bitsOffs', tree, i + 1, off)
    {
      off := LookInLayer(layers, i, lwOffs, tree);
      bitsOffs' := bitsOffs[i := off];
      if off >= 0 {
        NextOffset(bitsOffs, tree, i, off);
      }
    }

    /** Records the bit offset of every layer on the way down. */
    method FindDownward() returns (lwOffs: int, bitsOffs: seq<int>)
      requires deep == |layers| == Depth(tree) <= MAX_DEEP && Show(layers, tree)
      requires forall i: nat :: i < Depth(tree) ==> LevelSound(tree, i)
      ensures lwOffs == Descend(tree)
      ensures lwOffs >= 0 ==> Down(bitsOffs, tree, deep, lwOffs)
    {
      bitsOffs := seq(MAX_DEEP, _ => 0);
      lwOffs := 0;
      for i := 0 to deep
        invariant |bitsOffs| == MAX_DEEP && Down(bitsOffs, tree, i, lwOffs)
      {
        lwOffs, bitsOffs := StepDown(bitsOffs, i, lwOffs);
        if lwOffs < 0 {
          return;
        }
      }
    }

    /** Resets the recorded bits from the last layer up, as far as words empty. */
    method ResetUpward(bitsOffs: seq<int>)
      requires deep == |layers| == Depth(tree) && Show(layers, tree) && Offsets(bitsOffs, tree, deep)
      requires deep > 0 ==> InRange(tree, bitsOffs[deep - 1])
      modifies `tree, set l | l in layers :: l.bits
      ensures Show(layers, tree)
      ensures tree == if deep == 0 then NoLayer else ClearUp(old(tree), bitsOffs[deep - 1])
    {
      ghost var t := tree;
      ghost var goal := if deep == 0 then NoLayer else ClearUp(t, bitsOffs[deep - 1]);
      var i, more := deep - 1, true;
      while i >= 0 && more
        invariant -1 <= i < deep
        invariant more ==> Mixed(layers, i + 1, t, goal) && (i >= 0 ==> Clearing(t, goal, i, bitsOffs[i]))
        invariant !more ==> Show(layers, goal)
        decreases i, more
      {
        more := ResetStep(layers, i, bitsOffs[i], t, goal);
        if more {
          i := i - 1;
        }
      }
      tree := goal;
    }

    /** Turns a slot back. An index past `size` is ignored. */
    method BitTurnback(idx: nat)
      requires Valid() && size <= 0x8000_0000 && idx != size && idx < 0x1_0000_0000
      modifies `tree, set l | l in layers :: l.bits
      ensures Valid()
      ensures tree == GiveBack(old(tree), idx)
      ensures size <= 1 || idx > size ==> tree == old(tree)
      ensures size >= 2 && idx < size ==> Free(tree) == Free(old(tree)) + {idx}
    {
      if tree != NoLayer && idx < size {
        GiveBackOk(tree, idx);
        LeafInRange(tree, idx);
      }
      SetUpward(idx);
    }

    /** Sets the bit in the last layer and goes up as long as words were 0. */
    method SetUpward(idx: nat)
      requires deep == |layers| == Depth(tree) && Show(layers, tree)
      requires tree != NoLayer ==> idx > tree.leaf.size || InRange(tree, idx)
      modifies `tree, set l | l in layers :: l.bits
      ensures Show(layers, tree)
      ensures tree == SetGoal(old(tree), idx)
    {
      ghost var t, goal := tree, SetGoal(tree, idx);
      if t != NoLayer {
        SettingStarts(t, idx);
      }
      var tmpIdx: nat := idx;
      var i, more := deep - 1, true;
      while i >= 0 && more
        invariant -1 <= i < deep
        invariant more && i >= 0 ==> Mixed(layers, i + 1, t, goal) && Setting(t, goal, i, tmpIdx)
        invariant !more || i < 0 ==> Show(layers, goal)
        decreases i, more
      {
        more, tmpIdx := SetStep(layers, i, tmpIdx, t, goal);
        if more {
          i := i - 1;
        }
      }
      tree := goal;
    }
  }
}
