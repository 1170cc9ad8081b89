/** The victim queue: a binary min-heap of line numbers ordered by valid page count.  The priority and the position of
    an element live in the line itself, so the queue reads and writes the line table it shares with its owner. */
module PQueue {
  import opened Util

  /** What the FTL keeps per line. */
  datatype Line = Line(ipc: nat, vpc: nat, stamp: nat, pos: nat)

  /** The queue's array (element 0 is not used), one more than its length, the line table, and the line that is being
      taken out (-1 when there is none): its position is stale until its owner clears it. */
  datatype Heap = Heap(d: seq<nat>, size: nat, lines: seq<Line>, out: int) {
    ghost predicate Sized() {
      |d| == |lines| + 1 && 1 <= size <= |d|
    }

    ghost function Pri(k: nat): nat {
      if k < |d| && d[k] < |lines| then lines[d[k]].vpc else 0
    }

    /** Every slot but the hole `i` holds a line that knows its position, and none of them is `m`. */
    ghost predicate SlotsLinked(m: int, i: nat)
      requires Sized()
    {
      forall k :: 1 <= k < size && k != i ==> d[k] < |lines| && lines[d[k]].pos == k && d[k] != m && d[k] != out
    }

    /** Every line but `m` that has a position is found there, and that is not the hole. */
    ghost predicate LinesLinked(m: int, i: nat)
      requires Sized()
    {
      forall l :: 0 <= l < |lines| && l != m && l != out && lines[l].pos != 0 ==>
        lines[l].pos < size && lines[l].pos != i && d[lines[l].pos] == l
    }

    /** Parents come before children, wherever neither is the hole. */
    ghost predicate OrderedBut(i: nat) {
      forall k :: 2 <= k < size && k != i && k / 2 != i ==> Pri(k / 2) <= Pri(k)
    }

    /** The hole's parent comes before the hole's children. */
    ghost predicate Bridged(i: nat) {
      forall k :: 2 <= k < size && k / 2 == i && 2 <= i ==> Pri(i / 2) <= Pri(k)
    }

    ghost predicate Moving(m: nat, i: nat) {
      && Sized() && m < |lines| && m != out
      && SlotsLinked(m, i) && LinesLinked(m, i) && OrderedBut(i) && Bridged(i)
    }

    ghost predicate AboveChildren(m: nat, i: nat)
      requires m < |lines|
    {
      forall k :: 2 <= k < size && k / 2 == i ==> lines[m].vpc <= Pri(k)
    }

    ghost predicate BelowParent(m: nat, i: nat)
      requires m < |lines|
    {
      2 <= i < size ==> Pri(i / 2) <= lines[m].vpc
    }

    /** Outside the queue a line's position is 0, inside it is the slot that holds the line; the heap is ordered. */
    ghost predicate Valid() {
      Sized() && SlotsLinked(-1, 0) && LinesLinked(-1, 0) && OrderedBut(0)
    }

    ghost function Members(): set<nat> {
      set l: nat | l < |lines| && l != out && lines[l].pos != 0
    }

    /** Moving the line of slot `c` into slot `i`. */
    ghost function Shift(c: nat, i: nat): Heap
      requires c < |d| && i < |d| && d[c] < |lines|
    {
      Heap(d[i := d[c]], size, lines[d[c] := lines[d[c]].(pos := i)], out)
    }

    ghost function Place(m: nat, i: nat): Heap
      requires m < |lines| && i < |d|
    {
      Heap(d[i := m], size, lines[m := lines[m].(pos := i)], out)
    }

    /** The same lines up to their positions, and the same lines queued up to `m`. */
    ghost predicate SameLines(h: Heap, m: int) {
      && |lines| == |h.lines| && size == h.size && |d| == |h.d| && out == h.out
      && (forall l :: 0 <= l < |lines| ==> lines[l] == h.lines[l].(pos := lines[l].pos))
      && (forall l :: 0 <= l < |lines| && l != m ==> (lines[l].pos != 0 <==> h.lines[l].pos != 0))
      && (0 <= out < |lines| && out != m ==> lines[out] == h.lines[out])
    }
  }

  // ---------- Sifting ----------

  lemma ShiftLinked(h: Heap, m: nat, i: nat, c: nat)
    requires h.Moving(m, i) && 1 <= i < h.size && 1 <= c < h.size && c != i
    ensures var t := h.Shift(c, i); t.Sized() && t.SlotsLinked(m, c) && t.LinesLinked(m, c)
  {
  }

  lemma ShiftUpOrder(h: Heap, m: nat, i: nat)
    requires h.Moving(m, i) && 2 <= i < h.size
    requires var t := h.Shift(i / 2, i); t.Sized() && t.SlotsLinked(m, i / 2)
    ensures h.Shift(i / 2, i).OrderedBut(i / 2)
  {
    var p := i / 2;
    var t := h.Shift(p, i);
    forall k | 2 <= k < h.size && k != p && k / 2 != p
      ensures t.Pri(k / 2) <= t.Pri(k)
    {
      assert k != i;
      if k / 2 == i {
        assert h.Pri(i / 2) <= h.Pri(k);
      } else {
        assert h.Pri(k / 2) <= h.Pri(k);
      }
    }
  }

  lemma ShiftUpBridge(h: Heap, m: nat, i: nat)
    requires h.Moving(m, i) && 2 <= i < h.size
    requires h.Pri(i / 2) > h.lines[m].vpc
    requires var t := h.Shift(i / 2, i); t.Sized() && t.SlotsLinked(m, i / 2)
    ensures var t, p := h.Shift(i / 2, i), i / 2;
            forall k :: 2 <= k < h.size && k / 2 == p ==>
              h.lines[m].vpc <= t.Pri(k) && (2 <= p ==> t.Pri(p / 2) <= t.Pri(k))
  {
    var p := i / 2;
    var t := h.Shift(p, i);
    if 2 <= p {
      assert h.Pri(p / 2) <= h.Pri(p);
      assert t.Pri(p / 2) == h.Pri(p / 2);
    }
    forall k | 2 <= k < h.size && k / 2 == p
      ensures t.Pri(k) >= h.Pri(p)
    {
      if k != i {
        assert h.Pri(k / 2) <= h.Pri(k);
      }
    }
  }

  lemma ShiftUp(h: Heap, m: nat, i: nat)
    requires h.Moving(m, i) && 2 <= i < h.size
    requires h.Pri(i / 2) > h.lines[m].vpc
    ensures var t := h.Shift(i / 2, i); t.Moving(m, i / 2) && t.AboveChildren(m, i / 2)
  {
    ShiftLinked(h, m, i, i / 2);
    ShiftUpOrder(h, m, i);
    ShiftUpBridge(h, m, i);
    hide Heap.Pri, Heap.SlotsLinked, Heap.LinesLinked, Heap.OrderedBut;
  }

  lemma ShiftDown(h: Heap, m: nat, i: nat, c: nat)
    requires h.Moving(m, i) && 1 <= i < h.size && c < h.size && c / 2 == i
    requires forall k :: 2 <= k < h.size && k / 2 == i ==> h.Pri(c) <= h.Pri(k)
    requires h.Pri(c) < h.lines[m].vpc
    ensures var t := h.Shift(c, i); t.Moving(m, c) && t.BelowParent(m, c)
  {
    var t := h.Shift(c, i);
    ShiftLinked(h, m, i, c);
    assert forall k :: 1 <= k < h.size && k != c && k != i ==> t.d[k] == h.d[k] && t.Pri(k) == h.Pri(k);
    assert t.Pri(i) == h.Pri(c);
    hide Heap.Pri, Heap.SlotsLinked, Heap.LinesLinked;
  }

  /** Dropping the moving line into the hole restores the heap. */
  lemma PlaceValid(h: Heap, m: nat, i: nat)
    requires h.Moving(m, i) && 1 <= i < h.size && h.AboveChildren(m, i) && h.BelowParent(m, i)
    ensures h.Place(m, i).Valid()
  {
    var t := h.Place(m, i);
    assert t.SlotsLinked(-1, 0) && t.LinesLinked(-1, 0);
    assert forall k :: 1 <= k < h.size && k != i ==> t.d[k] == h.d[k] && t.Pri(k) == h.Pri(k);
    assert t.Pri(i) == h.lines[m].vpc;
    hide Heap.Pri, Heap.SlotsLinked, Heap.LinesLinked;
  }

  lemma ShiftSame(h: Heap, g: Heap, m: nat, i: nat, c: nat)
    requires h.Moving(m, i) && h.SameLines(g, m)
    requires 1 <= i < h.size && 1 <= c < h.size && c != i
    ensures h.Shift(c, i).SameLines(g, m)
    ensures var t := h.Shift(c, i);
            t.size == h.size && |t.d| == |h.d| && |t.lines| == |h.lines| && m < |h.lines| && t.lines[m] == h.lines[m]
  {
  }

  lemma PlaceSame(h: Heap, g: Heap, m: nat, i: nat)
    requires h.Moving(m, i) && h.SameLines(g, m) && 1 <= i < h.size
    ensures h.Place(m, i).SameLines(g, m)
    ensures m in h.Place(m, i).Members()
  {
  }

  // ---------- Sizes ----------

  /** The lines in the slots below `n`. */
  ghost function Held(h: Heap, n: nat): set<nat>
    requires n <= |h.d|
  {
    if n <= 1 then {} else Held(h, n - 1) + {h.d[n - 1]}
  }

  /** A queue that lacks some line has room for one more. */
  lemma RoomForOneMore(h: Heap, l: nat)
    requires h.Valid() && l < |h.lines| && l !in h.Members() && l != h.out
    ensures h.size < |h.d|
  {
    HeldSize(h, h.size);
    BelowSize(Held(h, h.size) + {l}, |h.lines|);
  }

  lemma {:induction false} HeldSize(h: Heap, n: nat)
    requires h.Valid() && 1 <= n <= h.size
    ensures |Held(h, n)| == n - 1
    ensures forall x :: x in Held(h, n) ==> x < |h.lines| && x != h.out && 0 < h.lines[x].pos < n
  {
    if n > 1 {
      HeldSize(h, n - 1);
    }
  }

  /** The root of a heap has the least priority of all members. */
  lemma {:induction false} RootLeast(h: Heap, k: nat)
    requires h.Valid() && 1 <= k < h.size
    ensures h.Pri(1) <= h.Pri(k)
    decreases k
  {
    if k > 1 {
      RootLeast(h, k / 2);
    }
  }

  lemma PeekLeast(h: Heap)
    requires h.Valid() && 1 < h.size
    ensures h.d[1] in h.Members()
    ensures forall l :: l in h.Members() ==> h.lines[h.d[1]].vpc <= h.lines[l].vpc
  {
    forall l | l in h.Members()
      ensures h.lines[h.d[1]].vpc <= h.lines[l].vpc
    {
      RootLeast(h, h.lines[l].pos);
    }
  }

  // ---------- Leaving a hole ----------

  /** Making a hole at slot `i` of a heap, for a line `m` of any priority. */
  lemma HoleFromHeap(h: Heap, t: Heap, m: nat, i: nat)
    requires h.Valid() && t.Sized() && t.SlotsLinked(m, i) && t.LinesLinked(m, i)
    requires m < |t.lines| && m != t.out && t.size <= h.size && 1 <= i < h.size
    requires forall k :: 1 <= k < t.size && k != i ==> t.Pri(k) == h.Pri(k)
    ensures t.Moving(m, i)
    ensures t.lines[m].vpc <= h.Pri(i) ==> t.AboveChildren(m, i)
    ensures t.lines[m].vpc >= h.Pri(i) ==> t.BelowParent(m, i)
  {
    hide Heap.SlotsLinked, Heap.LinesLinked, Heap.Pri;
    forall k | 2 <= k < t.size && k / 2 == i
      ensures h.Pri(i) <= h.Pri(k) && (2 <= i ==> h.Pri(i / 2) <= h.Pri(k))
    {
      assert k / 2 != 0 ==> h.Pri(k / 2) <= h.Pri(k);
      assert 2 <= i ==> h.Pri(i / 2) <= h.Pri(i);
    }
  }

  /** A heap whose line `m`, at slot `i`, has been given another priority. */
  lemma ReprioritizedMoving(h: Heap, m: nat, p: nat)
    requires h.Valid() && h.out == -1 && m in h.Members()
    ensures var i, t := h.lines[m].pos, h.(lines := h.lines[m := h.lines[m].(vpc := p)]);
            && h.Sized() && 1 <= i < h.size && h.d[i] == m && t.Moving(m, i)
            && (p < h.lines[m].vpc ==> t.AboveChildren(m, i))
            && (p >= h.lines[m].vpc ==> t.BelowParent(m, i))
  {
    hide Heap.OrderedBut, Heap.Bridged, Heap.AboveChildren, Heap.BelowParent;
    var i := h.lines[m].pos;
    HoleFromHeap(h, h.(lines := h.lines[m := h.lines[m].(vpc := p)]), m, i);
  }

  /** Taking out the line of the last slot leaves a heap that lacks only it. */
  lemma RemovedLast(h: Heap, l: nat)
    requires h.Valid() && h.out == -1 && l in h.Members() && h.lines[l].pos == h.size - 1
    ensures 1 <= h.size - 1 && h.d[h.size - 1] == l
    ensures var t := Heap(h.d, h.size - 1, h.lines, -1); t.Moving(l, t.size) && t.BelowParent(l, t.size)
  {
    hide Heap.OrderedBut, Heap.Bridged;
    var t := Heap(h.d, h.size - 1, h.lines, -1);
    HoleFromHeap(h, t, l, t.size);
  }

  /** A heap whose last line has been moved into the slot of line `l`, which is leaving. */
  lemma RemovedMoving(h: Heap, l: nat)
    requires h.Valid() && h.out == -1 && l in h.Members() && h.lines[l].pos != h.size - 1
    ensures var i, n := h.lines[l].pos, h.size - 1;
            var m := h.d[n];
            var t := Heap(h.d[i := m], n, h.lines, l);
            && 1 <= i < n && h.d[i] == l && m < |h.lines|
            && t.Moving(m, i)
            && (h.lines[l].vpc > h.lines[m].vpc ==> t.AboveChildren(m, i))
            && (h.lines[l].vpc <= h.lines[m].vpc ==> t.BelowParent(m, i))
  {
    hide Heap.OrderedBut, Heap.Bridged, Heap.AboveChildren, Heap.BelowParent;
    var i, n := h.lines[l].pos, h.size - 1;
    var m := h.d[n];
    HoleFromHeap(h, Heap(h.d[i := m], n, h.lines, l), m, i);
  }

  lemma InsertedMoving(h: Heap, l: nat)
    requires h.Valid() && h.out == -1 && l < |h.lines| && h.lines[l].pos == 0 && h.size < |h.d|
    ensures var t := Heap(h.d[h.size := l], h.size + 1, h.lines, -1);
            t.Moving(l, h.size) && t.AboveChildren(l, h.size)
  {
    var t := Heap(h.d[h.size := l], h.size + 1, h.lines, -1);
    assert t.SlotsLinked(l, h.size) && t.LinesLinked(l, h.size);
    assert forall k :: 1 <= k < h.size ==> t.Pri(k) == h.Pri(k);
  }

  /** Clearing the stale position of the line taken out completes its removal. */
  lemma ClearedValid(h: Heap)
    requires h.Valid() && 0 <= h.out < |h.lines|
    ensures var t := Heap(h.d, h.size, h.lines[h.out := h.lines[h.out].(pos := 0)], -1);
            t.Valid() && t.Members() == h.Members()
  {
    var t := Heap(h.d, h.size, h.lines[h.out := h.lines[h.out].(pos := 0)], -1);
    assert forall k :: 1 <= k < h.size ==> t.Pri(k) == h.Pri(k);
  }

  /** Whatever else changes in the line table, the queue depends only on positions and on its members' priorities. */
  lemma Rekeyed(h: Heap, t: Heap)
    requires h.Valid() && h.out == -1
    requires t == h.(lines := t.lines) && |t.lines| == |h.lines|
    requires forall l :: 0 <= l < |h.lines| ==>
               t.lines[l].pos == h.lines[l].pos && (h.lines[l].pos != 0 ==> t.lines[l].vpc == h.lines[l].vpc)
    ensures t.Valid() && t.Members() == h.Members()
  {
    assert forall k :: 1 <= k < h.size ==> t.Pri(k) == h.Pri(k);
  }

  // ---------- The queue ----------

  class PriorityQueue {
    const d: array<nat>
    var size: nat
    const lines: array<Line>

    constructor (lines: array<Line>)
      requires forall l :: 0 <= l < lines.Length ==> lines[l].pos == 0
      ensures this.lines == lines && fresh(d) && fresh(this) && Valid() && Members() == {}
    {
      this.lines := lines;
      d := new nat[lines.Length + 1];
      size := 1;
    }

    /** The queue as a value, with line `out` being taken out. */
    ghost function Value(out: int): Heap
      reads this, d, lines
    {
      Heap(d[..], size, lines[..], out)
    }

    ghost predicate Valid()
      reads this, d, lines
    {
      Value(-1).Valid()
    }

    ghost function Members(): set<nat>
      reads this, d, lines
    {
      Value(-1).Members()
    }

    method MoveSlot(c: nat, i: nat, ghost out: int)
      requires c < d.Length && i < d.Length && d[c] < lines.Length
      modifies d, lines
      ensures Value(out) == old(Value(out)).Shift(c, i)
    {
      d[i] := d[c];
      lines[d[i]] := lines[d[i]].(pos := i);
    }

    method PutSlot(m: nat, i: nat, ghost out: int)
      requires m < lines.Length && i < d.Length
      modifies d, lines
      ensures Value(out) == old(Value(out)).Place(m, i)
    {
      d[i] := m;
      lines[m] := lines[m].(pos := i);
    }

    /** Sifting the line in slot `start` towards the root. */
    method BubbleUp(start: nat, ghost out: int)
      requires Value(out).Sized() && 1 <= start < size
      requires Value(out).Moving(d[start], start) && Value(out).AboveChildren(d[start], start)
      modifies d, lines
      ensures Value(out).Valid() && Value(out).SameLines(old(Value(out)), old(d[start]))
      ensures old(d[start]) in Value(out).Members()
    {
      hide Heap.Moving, Heap.SameLines, Heap.AboveChildren, Heap.Valid, Heap.Members, Heap.SlotsLinked,
        Heap.Shift, Heap.Place, Rising;
      ghost var before := Value(out);
      RiseStart(before, d[start], start);
      var i: nat := start;
      var m := d[i];
      var pri := lines[m].vpc;
      while i > 1 && lines[d[i / 2]].vpc > pri
        invariant i < d.Length && m < lines.Length && pri == before.lines[m].vpc
        invariant i > 1 ==> d[i / 2] < lines.Length
        invariant Rising(Value(out), before, m, i)
      {
        var p := i / 2;
        UpStep(Value(out), before, m, i);
        MoveSlot(p, i, out);
        i := p;
      }
      RiseEnd(Value(out), before, m, i);
      PutSlot(m, i, out);
    }

    /** The child that has to come first, or 0 when there is none. */
    method MaxChild(i: nat, ghost before: Heap, ghost m: nat, ghost out: int) returns (c: nat)
      requires Sinking(Value(out), before, m, i)
      ensures IsMaxChild(Value(out), i, c) && (c != 0 ==> c < size && d[c] < lines.Length)
    {
      hide Heap.Moving;
      HoleFacts(Value(out), m, i);
      c := 2 * i;
      if c >= size {
        return 0;
      }
      if c + 1 < size && lines[d[c]].vpc > lines[d[c + 1]].vpc {
        c := c + 1;
      }
    }

    /** Sifting the line in slot `start` towards the leaves.  When `start` is the slot just past the end, that line has
        left the queue and stays where it is. */
    method PercolateDown(start: nat, ghost out: int)
      requires 1 <= start <= size <= d.Length && start < d.Length
      requires Value(out).Moving(d[start], start) && Value(out).BelowParent(d[start], start)
      requires start == size ==> out == -1
      modifies d, lines
      ensures Value(if start < size then out else old(d[start])).Valid()
      ensures Value(out).SameLines(old(Value(out)), old(d[start]))
      ensures start < size ==> old(d[start]) in Value(out).Members()
    {
      hide Heap.Moving, Heap.SameLines, Heap.BelowParent, Heap.Valid, Heap.Members, Heap.SlotsLinked,
        Heap.Shift, Heap.Place, IsMaxChild, Sinking;
      ghost var before := Value(out);
      SinkStart(before, d[start], start);
      var i: nat := start;
      var m := d[i];
      var pri := lines[m].vpc;
      var c: nat := MaxChild(i, before, m, out);
      while c != 0 && pri > lines[d[c]].vpc
        invariant i < d.Length && m < lines.Length && pri == before.lines[m].vpc
        invariant (i < size || i == start) && (start == size ==> i == start)
        invariant Sinking(Value(out), before, m, i)
        invariant IsMaxChild(Value(out), i, c) && (c != 0 ==> c < size && d[c] < lines.Length)
        decreases size - i
      {
        DownStep(Value(out), before, m, i, c);
        MoveSlot(c, i, out);
        i := c;
        c := MaxChild(i, before, m, out);
      }
      SettleValid(Value(out), before, m, i, c);
      PutSlot(m, i, out);
    }

    method Insert(l: nat)
      requires Valid() && l < lines.Length && l !in Members()
      modifies this, d, lines
      ensures Valid() && Members() == old(Members()) + {l}
      ensures SameButPositions(old(lines[..]))
    {
      RoomForOneMore(Value(-1), l);
      InsertedMoving(Value(-1), l);
      ghost var h := Value(-1);
      var i := size;
      size := size + 1;
      d[i] := l;
      assert Value(-1) == Heap(h.d[h.size := l], h.size + 1, h.lines, -1);
      BubbleUp(i, -1);
    }

    /** Every line is as in `before`, up to its position in the queue. */
    ghost predicate SameButPositions(before: seq<Line>)
      reads lines
    {
      && |before| == lines.Length
      && forall l :: 0 <= l < lines.Length ==> lines[l] == before[l].(pos := lines[l].pos)
    }

    method ChangePriority(p: nat, l: nat)
      requires Valid() && l in Members()
      modifies d, lines
      ensures Valid() && Members() == old(Members())
      ensures SameButPositions(old(lines[..])[l := old(lines[l]).(vpc := p)])
    {
      hide Heap.Moving, Heap.AboveChildren, Heap.BelowParent, Heap.Valid;
      var old_pri := lines[l].vpc;
      ReprioritizedMoving(Value(-1), l, p);
      ghost var h := Value(-1);
      lines[l] := lines[l].(vpc := p);
      assert Value(-1) == h.(lines := h.lines[l := h.lines[l].(vpc := p)]);
      var posn := lines[l].pos;
      if old_pri > p {
        BubbleUp(posn, -1);
      } else {
        PercolateDown(posn, -1);
      }
    }

    /** Taking line `l` out.  Its own position is left as it is, for the owner to clear. */
    method Remove(l: nat)
      requires Valid() && l in Members()
      modifies this, d, lines
      ensures Value(l).Valid() && Value(l).Members() == old(Members()) - {l}
      ensures SameButPositions(old(lines[..]))
    {
      var posn := lines[l].pos;
      ghost var out := TakeOut(l, posn);
      ghost var h, m := Value(out), d[posn];
      if lines[l].vpc > lines[d[posn]].vpc {
        BubbleUp(posn, out);
      } else {
        PercolateDown(posn, out);
      }
      TakenMembers(old(Value(-1)), h, Value(out), m, l);
    }

    /** The last slot's line replaces the one in slot `posn`. */
    method TakeOut(l: nat, posn: nat) returns (ghost out: int)
      requires Valid() && l in Members() && posn == lines[l].pos
      modifies this, d
      ensures size == old(size) - 1 && 1 <= posn <= size < d.Length
      ensures out == (if posn < size then l else -1)
      ensures d[posn] < lines.Length && Value(out).Moving(d[posn], posn)
      ensures posn == size ==> d[posn] == l
      ensures d[posn] in old(Members())
      ensures posn < size && lines[l].vpc > lines[d[posn]].vpc ==> Value(out).AboveChildren(d[posn], posn)
      ensures lines[l].vpc <= lines[d[posn]].vpc ==> Value(out).BelowParent(d[posn], posn)
    {
      ghost var h := Value(-1);
      out := if posn == size - 1 then -1 else l;
      if posn == size - 1 {
        RemovedLast(h, l);
        assert h.d[posn := h.d[posn]] == h.d;
      } else {
        RemovedMoving(h, l);
      }
      size := size - 1;
      d[posn] := d[size];
      assert Value(out) == Heap(h.d[posn := h.d[h.size - 1]], h.size - 1, h.lines, out);
    }

    method Peek() returns (some: bool, l: nat)
      requires Valid()
      ensures some <==> Members() != {}
      ensures some ==> l in Members() && forall k :: k in Members() ==> lines[l].vpc <= lines[k].vpc
    {
      if size == 1 {
        assert Members() == {};
        return false, 0;
      }
      PeekLeast(Value(-1));
      return true, d[1];
    }

    /** Taking the least line out; as with `Remove`, its position is left for the owner to clear. */
    method Pop() returns (some: bool, l: nat)
      requires Valid()
      modifies this, d, lines
      ensures some <==> old(Members()) != {}
      ensures some ==> l in old(Members()) && forall k :: k in old(Members()) ==> old(lines[l].vpc) <= old(lines[k].vpc)
      ensures some ==> Value(l).Valid() && Value(l).Members() == old(Members()) - {l}
      ensures !some ==> Valid()
      ensures SameButPositions(old(lines[..]))
    {
      if size == 1 {
        assert Members() == {};
        return false, 0;
      }
      PeekLeast(Value(-1));
      some, l := true, d[1];
      assert lines[l].pos == 1;
      ghost var out := TakeOut(l, 1);
      ghost var h, m := Value(out), d[1];
      PercolateDown(1, out);
      TakenMembers(old(Value(-1)), h, Value(out), m, l);
    }
  }

  /** The members once `l` is out, after line `m` has settled elsewhere. */
  lemma TakenMembers(g: Heap, h: Heap, t: Heap, m: nat, l: nat)
    requires g.out == -1 && m in g.Members() && h.lines == g.lines
    requires t.SameLines(h, m)
    requires m != l ==> m in t.Members()
    ensures t.(out := l).Members() == g.Members() - {l}
  {
    assert forall k :: 0 <= k < |g.lines| && k != l ==> (t.lines[k].pos != 0 <==> g.lines[k].pos != 0);
  }

  ghost predicate IsMaxChild(h: Heap, i: nat, c: nat) {
    && h.size <= |h.d|
    && (forall k :: 1 <= k < h.size && k != i ==> h.d[k] < |h.lines|)
    && if c == 0 then 2 * i >= h.size
       else c < h.size && c / 2 == i && 1 <= i && forall k :: 2 <= k < h.size && k / 2 == i ==> h.Pri(c) <= h.Pri(k)
  }

  lemma MaxChildFacts(h: Heap, i: nat, c: nat)
    requires IsMaxChild(h, i, c) && c != 0
    ensures i < c < h.size && c / 2 == i && h.d[c] < |h.lines|
    ensures forall k :: 2 <= k < h.size && k / 2 == i ==> h.d[k] < |h.lines| && h.Pri(c) <= h.Pri(k)
  {
  }

  /** Line `m` is on its way up in what was heap `g`, and has reached the hole `i`. */
  ghost predicate Rising(h: Heap, g: Heap, m: nat, i: nat) {
    && m < |h.lines| && m < |g.lines| && h.lines[m].vpc == g.lines[m].vpc
    && h.Moving(m, i) && h.AboveChildren(m, i) && h.SameLines(g, m) && 1 <= i < h.size
  }

  lemma RiseStart(h: Heap, m: nat, i: nat)
    requires h.Moving(m, i) && h.AboveChildren(m, i) && 1 <= i < h.size
    ensures Rising(h, h, m, i) && h.size <= |h.d|
    ensures i > 1 ==> h.d[i / 2] < |h.lines|
  {
  }

  lemma UpStep(h: Heap, g: Heap, m: nat, i: nat)
    requires Rising(h, g, m, i) && 2 <= i < |h.d|
    requires h.d[i / 2] < |h.lines| && h.lines[h.d[i / 2]].vpc > g.lines[m].vpc
    ensures Rising(h.Shift(i / 2, i), g, m, i / 2)
    ensures var t := h.Shift(i / 2, i); i / 2 > 1 ==> t.d[i / 2 / 2] < |t.lines|
  {
    ShiftUp(h, m, i);
    ShiftSame(h, g, m, i, i / 2);
    HoleFacts(h.Shift(i / 2, i), m, i / 2);
  }

  lemma RiseEnd(h: Heap, g: Heap, m: nat, i: nat)
    requires Rising(h, g, m, i)
    requires i > 1 ==> i / 2 < |h.d| && h.d[i / 2] < |h.lines| && h.lines[h.d[i / 2]].vpc <= g.lines[m].vpc
    ensures i < |h.d| && h.Place(m, i).Valid() && h.Place(m, i).SameLines(g, m) && m in h.Place(m, i).Members()
  {
    PlaceValid(h, m, i);
    PlaceSame(h, g, m, i);
  }

  /** Line `m` is on its way down in what was heap `g`, and has reached the hole `i`. */
  ghost predicate Sinking(h: Heap, g: Heap, m: nat, i: nat) {
    && m < |h.lines| && m < |g.lines| && h.lines[m].vpc == g.lines[m].vpc
    && h.Moving(m, i) && h.BelowParent(m, i) && h.SameLines(g, m) && 1 <= i <= h.size && i < |h.d|
  }

  lemma SinkStart(h: Heap, m: nat, i: nat)
    requires h.Moving(m, i) && h.BelowParent(m, i) && 1 <= i <= h.size && i < |h.d|
    ensures Sinking(h, h, m, i)
  {
  }

  lemma DownStep(h: Heap, g: Heap, m: nat, i: nat, c: nat)
    requires Sinking(h, g, m, i)
    requires IsMaxChild(h, i, c) && c != 0 && c < h.size && h.d[c] < |h.lines| && h.lines[h.d[c]].vpc < g.lines[m].vpc
    ensures i < c < h.size && h.d[c] < |h.lines| && i < |h.d| && c < |h.d|
    ensures Sinking(h.Shift(c, i), g, m, c)
  {
    MaxChildFacts(h, i, c);
    ShiftDown(h, m, i, c);
    ShiftSame(h, g, m, i, c);
  }

  lemma LeafAbove(h: Heap, m: nat, i: nat, c: nat)
    requires h.Moving(m, i) && 1 <= i < h.size && IsMaxChild(h, i, c)
    requires c != 0 ==> c < h.size && h.d[c] < |h.lines| && h.lines[m].vpc <= h.lines[h.d[c]].vpc
    ensures h.AboveChildren(m, i)
  {
  }

  /** What is left when a line that was moving down has come to rest. */
  lemma SettleValid(h: Heap, g: Heap, m: nat, i: nat, c: nat)
    requires i == h.size ==> h.out == -1
    requires Sinking(h, g, m, i) && IsMaxChild(h, i, c)
    requires c != 0 ==> c < h.size && h.d[c] < |h.lines| && g.lines[m].vpc <= h.lines[h.d[c]].vpc
    ensures h.Place(m, i).(out := if i < h.size then h.out else m).Valid()
    ensures h.Place(m, i).SameLines(g, m)
    ensures i < h.size ==> m in h.Place(m, i).Members()
  {
    if i < h.size {
      LeafAbove(h, m, i, c);
      PlaceValid(h, m, i);
      PlaceSame(h, g, m, i);
    } else {
      PlaceOutside(h, m);
    }
  }

  lemma PlaceOutside(h: Heap, m: nat)
    requires h.Moving(m, h.size) && h.size < |h.d| && h.out == -1
    ensures h.Place(m, h.size).(out := m).Valid()
  {
    var t := h.Place(m, h.size).(out := m);
    assert forall k :: 1 <= k < h.size ==> t.Pri(k) == h.Pri(k);
  }

  lemma HoleFacts(h: Heap, m: nat, i: nat)
    requires h.Moving(m, i) && 1 <= i <= h.size
    ensures h.Sized() && m < |h.lines|
    ensures i > 1 ==> h.d[i / 2] < |h.lines| && h.d[i / 2] != m
    ensures forall k :: 1 <= k < h.size && k != i ==> h.d[k] < |h.lines| && h.d[k] != m
  {
  }
}
