/** The shape of the flash array as the mapping logic sees it: which line and which block a page belongs to,
    and in which order the write pointer visits the pages of a line. */
module Layouts {

  datatype Layout = Layout(
    pages: nat, perLine: nat, perBlk: nat, lines: nat, blks: nat,
    lineOf: seq<nat>, blkOf: seq<nat>, lineOfBlk: seq<nat>, slotOf: seq<nat>, pageAt: seq<seq<nat>>)
  {
    ghost predicate Sized() {
      && |lineOf| == |blkOf| == |slotOf| == pages
      && |lineOfBlk| == blks
      && |pageAt| == lines
      && 0 < perLine
    }

    ghost predicate InRange()
      requires Sized()
    {
      && (forall x :: 0 <= x < pages ==> lineOf[x] < lines)
      && (forall x :: 0 <= x < pages ==> blkOf[x] < blks)
      && (forall x :: 0 <= x < pages ==> slotOf[x] < perLine)
      && (forall x :: 0 <= x < pages ==> lineOfBlk[blkOf[x]] == lineOf[x])
      && (forall b :: 0 <= b < blks ==> lineOfBlk[b] < lines)
    }

    /** Slot `k` of line `l` is one page, and every page is one slot of its line. */
    ghost predicate Bijective()
      requires Sized() && InRange()
    {
      && (forall l :: 0 <= l < lines ==> |pageAt[l]| == perLine)
      && (forall l, k :: 0 <= l < lines && 0 <= k < perLine ==>
            pageAt[l][k] < pages && lineOf[pageAt[l][k]] == l && slotOf[pageAt[l][k]] == k)
      && (forall x :: 0 <= x < pages ==> pageAt[lineOf[x]][slotOf[x]] == x)
    }

    ghost predicate Ok() {
      && Sized() && InRange() && Bijective()
      && TagsBounded(lineOf, lines, perLine)
      && TagsBounded(blkOf, blks, perBlk)
    }
  }

  ghost function Tagged(tags: seq<nat>, t: nat): set<nat> {
    set x: nat | x < |tags| && tags[x] == t
  }

  ghost predicate TagsBounded(tags: seq<nat>, n: nat, cap: nat) {
    && (forall x :: 0 <= x < |tags| ==> tags[x] < n)
    && (forall t :: 0 <= t < n ==> |Tagged(tags, t)| <= cap)
  }
}
