/** Flattening a sequence of blocks, as the packing loop and the SubRip
    rendering both do. */
module Seqs {

  /** The blocks of `gs` one after another. */
  function Concat<T>(gs: seq<seq<T>>): seq<T> {
    if gs == [] then [] else gs[0] + Concat(gs[1..])
  }

  lemma AppendAssoc<T>(a: seq<T>, b: seq<T>, c: seq<T>)
    ensures a + (b + c) == (a + b) + c
  {
  }

  lemma ConcatCons<T>(g: seq<T>, gs: seq<seq<T>>)
    ensures Concat([g] + gs) == g + Concat(gs)
  {
    assert ([g] + gs)[1..] == gs;
  }

  lemma {:induction false} ConcatHas<T>(gs: seq<seq<T>>, j: int, k: int)
    requires 0 <= j < |gs| && 0 <= k < |gs[j]|
    ensures gs[j][k] in Concat(gs)
    decreases |gs|
  {
    if j > 0 {
      ConcatHas(gs[1..], j - 1, k);
      assert gs[1..][j - 1] == gs[j];
    }
  }

  /** Blocks of a common width `w` concatenate to `|bs| * w` elements. */
  lemma {:induction false} ConcatLength<T>(bs: seq<seq<T>>, w: nat)
    requires forall i :: 0 <= i < |bs| ==> |bs[i]| == w
    ensures |Concat(bs)| == |bs| * w
  {
    if bs != [] {
      ConcatLength(bs[1..], w);
    }
  }

  /** In blocks of a common width `w`, element `r` of block `j` sits at
      position `w * j + r` of the concatenation. */
  lemma {:induction false} ConcatAt<T>(bs: seq<seq<T>>, w: nat, j: int, r: int)
    requires forall i :: 0 <= i < |bs| ==> |bs[i]| == w
    requires 0 <= j < |bs| && 0 <= r < w
    ensures w * j + r < |Concat(bs)| && Concat(bs)[w * j + r] == bs[j][r]
    decreases j
  {
    ConcatLength(bs, w);
    if j > 0 {
      ConcatAt(bs[1..], w, j - 1, r);
      assert w * j + r == w + (w * (j - 1) + r);
    }
  }

  /** Every position `m` of a concatenation of width-`w` blocks is some
      element `r` of some block `j`, at `m == w * j + r`. */
  lemma {:induction false} BlockOf<T>(bs: seq<seq<T>>, w: nat, m: int) returns (j: nat, r: nat)
    requires forall i :: 0 <= i < |bs| ==> |bs[i]| == w
    requires 0 <= m < |Concat(bs)|
    ensures j < |bs| && r < w && m == w * j + r
    ensures Concat(bs)[m] == bs[j][r]
    decreases |bs|
  {
    if m < w {
      j, r := 0, m;
    } else {
      var j', r' := BlockOf(bs[1..], w, m - w);
      j, r := j' + 1, r';
      assert bs[1..][j'] == bs[j];
    }
  }

  /** The blocks `f(x)` for every `x` of `xs`, one after another. */
  function ConcatMap<A, T>(xs: seq<A>, f: A -> seq<T>): seq<T> {
    Concat(seq(|xs|, i requires 0 <= i < |xs| => f(xs[i])))
  }

  /** Blocks of a common width `w` concatenate to `|xs| * w` elements. */
  lemma ConcatMapLength<A, T>(xs: seq<A>, f: A -> seq<T>, w: nat)
    requires forall x :: |f(x)| == w
    ensures |ConcatMap(xs, f)| == |xs| * w
  {
    ConcatLength(seq(|xs|, i requires 0 <= i < |xs| => f(xs[i])), w);
  }

  /** Element `r` of the block of `xs[j]` sits at position `w * j + r`. */
  lemma ConcatMapAt<A, T>(xs: seq<A>, f: A -> seq<T>, w: nat, j: int, r: int)
    requires forall x :: |f(x)| == w
    requires 0 <= j < |xs| && 0 <= r < w
    ensures w * j + r < |ConcatMap(xs, f)| && ConcatMap(xs, f)[w * j + r] == f(xs[j])[r]
  {
    ConcatAt(seq(|xs|, i requires 0 <= i < |xs| => f(xs[i])), w, j, r);
  }

  /** Every position `m` of a concatenation of width-`w` blocks `f(x)` is
      element `r` of the block of some `xs[j]`, at `m == w * j + r`. */
  lemma ConcatMapBlockOf<A, T>(xs: seq<A>, f: A -> seq<T>, w: nat, m: int) returns (j: nat, r: nat)
    requires forall x :: |f(x)| == w
    requires 0 <= m < |ConcatMap(xs, f)|
    ensures j < |xs| && r < w && m == w * j + r
    ensures ConcatMap(xs, f)[m] == f(xs[j])[r]
  {
    var bs := seq(|xs|, i requires 0 <= i < |xs| => f(xs[i]));
    j, r := BlockOf(bs, w, m);
  }

  /** Appending a block at the end appends its elements. */
  lemma {:induction false} ConcatSnoc<T>(gs: seq<seq<T>>, g: seq<T>)
    ensures Concat(gs + [g]) == Concat(gs) + g
    decreases |gs|
  {
    if gs == [] {
      assert [] + [g] == [g];
      assert [g][1..] == [];
    } else {
      ConcatSnoc(gs[1..], g);
      assert (gs + [g])[1..] == gs[1..] + [g];
      AppendAssoc(gs[0], Concat(gs[1..]), g);
    }
  }

  /** Block `j` starts in the concatenation right after the elements of
      the blocks before it. */
  lemma {:induction false} ConcatOffset<T>(gs: seq<seq<T>>, j: int)
    requires 0 <= j < |gs|
    ensures |Concat(gs[..j])| + |gs[j]| <= |Concat(gs)|
    ensures forall k :: 0 <= k < |gs[j]| ==> Concat(gs)[|Concat(gs[..j])| + k] == gs[j][k]
    decreases j
  {
    if j == 0 {
      assert gs[..0] == [];
    } else {
      ConcatOffset(gs[1..], j - 1);
      assert gs[..j][1..] == gs[1..][..j - 1];
      assert gs[1..][j - 1] == gs[j];
    }
  }

  /** The elements of the blocks before `j + 1` are those before `j` and
      then block `j`. */
  lemma ConcatPrefixStep<T>(gs: seq<seq<T>>, j: int)
    requires 0 <= j < |gs|
    ensures |Concat(gs[..j + 1])| == |Concat(gs[..j])| + |gs[j]|
  {
    assert gs[..j + 1] == gs[..j] + [gs[j]];
    ConcatSnoc(gs[..j], gs[j]);
  }

  /** Block `j` of a concatenation followed by more elements sits at the
      same place in the whole. */
  lemma BlockIn<T>(gs: seq<seq<T>>, p: seq<T>, whole: seq<T>, j: int)
    requires Concat(gs) + p == whole && 0 <= j < |gs|
    ensures |Concat(gs[..j])| + |gs[j]| <= |whole|
    ensures forall k :: 0 <= k < |gs[j]| ==> whole[|Concat(gs[..j])| + k] == gs[j][k]
  {
    ConcatOffset(gs, j);
  }
}
