/** The JPixels class of JPixels.h / JPixels.cpp: a singly linked list of
    (pixel, row, col) nodes that caches its length and the running totals
    of the three colour channels.  The node chain is abstracted by a ghost
    sequence of entries, the cached fields are tied to it by Valid(). */
module PixelList {
  import opened Sums

  /** One channel of an ImageLib pixel. */
  type Level = c: int | 0 <= c < 0x100

  /** ImageLib's pixel: only its red, green and blue fields are used. */
  datatype Pixel = Pixel(red: Level, green: Level, blue: Level)

  datatype Band = RedBand | GreenBand | BlueBand

  function LevelOf(p: Pixel, b: Band): Level
  {
    match b
    case RedBand => p.red
    case GreenBand => p.green
    case BlueBand => p.blue
  }

  /** What one node holds. */
  datatype Entry = Entry(p: Pixel, row: int, col: int)

  /** The values of one channel along a list of entries. */
  function Levels(es: seq<Entry>, b: Band): seq<int>
  {
    seq(|es|, k requires 0 <= k < |es| => LevelOf(es[k].p, b))
  }

  /** The running total of one channel over a list of entries. */
  function Total(es: seq<Entry>, b: Band): int
  {
    Sum(Levels(es, b))
  }

  function Reverse<T>(s: seq<T>): (r: seq<T>)
    ensures |r| == |s|
  {
    if s == [] then [] else Reverse(s[1..]) + [s[0]]
  }

  lemma TotalCons(e: Entry, es: seq<Entry>, b: Band)
    ensures Total([e] + es, b) == LevelOf(e.p, b) + Total(es, b)
  {
    assert Levels([e] + es, b)[1..] == Levels(es, b);
  }

  lemma TotalAppend(a: seq<Entry>, c: seq<Entry>, b: Band)
    ensures Total(a + c, b) == Total(a, b) + Total(c, b)
  {
    assert Levels(a + c, b) == Levels(a, b) + Levels(c, b);
    SumAppend(Levels(a, b), Levels(c, b));
  }

  /** Reversing a list does not change a channel total. */
  lemma {:induction false} TotalReverse(es: seq<Entry>, b: Band)
    ensures Total(Reverse(es), b) == Total(es, b)
  {
    if es != [] {
      TotalReverse(es[1..], b);
      assert Reverse(es) == Reverse(es[1..]) + [es[0]];
      TotalAppend(Reverse(es[1..]), [es[0]], b);
      TotalCons(es[0], [], b);
      assert [es[0]] + [] == [es[0]] && Levels([], b) == [];
      TotalCons(es[0], es[1..], b);
      assert [es[0]] + es[1..] == es;
    }
  }

  /** Channel totals are at most 255 per entry and never negative. */
  lemma TotalBounds(es: seq<Entry>, b: Band)
    ensures 0 <= Total(es, b) <= 255 * |es|
  {
    SumBetween(Levels(es, b), 0, 255);
  }

  /** The struct Node of JPixels.h. */
  class Node {
    var p: Pixel
    var row: int
    var col: int
    var next: Node?

    constructor (p: Pixel, row: int, col: int, next: Node?)
      ensures this.p == p && this.row == row && this.col == col && this.next == next
    {
      this.p := p;
      this.row := row;
      this.col := col;
      this.next := next;
    }
  }

  /** The nodes ns, linked by next from first and ending in null, hold the
      entries es, in order. */
  ghost predicate ChainOf(first: Node?, ns: seq<Node>, es: seq<Entry>)
    reads ns
    decreases |ns|
  {
    if ns == [] then first == null && es == []
    else
      && first == ns[0] && es != []
      && es[0] == Entry(ns[0].p, ns[0].row, ns[0].col)
      && ChainOf(ns[0].next, ns[1..], es[1..])
  }

  /** A chain has one entry per node. */
  lemma {:induction false} ChainLength(first: Node?, ns: seq<Node>, es: seq<Entry>)
    requires ChainOf(first, ns, es)
    ensures |ns| == |es|
    decreases |ns|
  {
    if ns != [] {
      ChainLength(ns[0].next, ns[1..], es[1..]);
    }
  }

  /** A node in front of a chain, linked to its start, extends it. */
  lemma ChainCons(n: Node, ns: seq<Node>, es: seq<Entry>)
    requires ChainOf(n.next, ns, es)
    ensures ChainOf(n, [n] + ns, [Entry(n.p, n.row, n.col)] + es)
  {
    assert ([n] + ns)[1..] == ns;
    assert ([Entry(n.p, n.row, n.col)] + es)[1..] == es;
  }

  /** Nodes each linked to the next, the last to null, form the chain of
      the entries they hold. */
  lemma {:induction false} LinkedChain(ns: seq<Node>, es: seq<Entry>)
    requires |ns| > 0 && |ns| == |es| && ns[|ns| - 1].next == null
    requires forall j {:trigger ns[j].next} :: 0 <= j < |ns| - 1 ==> ns[j].next == ns[j + 1]
    requires forall j :: 0 <= j < |ns| ==> Entry(ns[j].p, ns[j].row, ns[j].col) == es[j]
    ensures ChainOf(ns[0], ns, es)
    decreases |ns|
  {
    if |ns| > 1 {
      var ns', es' := ns[1..], es[1..];
      forall j | 0 <= j < |ns'| - 1 ensures ns'[j].next == ns'[j + 1] {
        assert ns'[j] == ns[j + 1] && ns[j + 1].next == ns[j + 2];
      }
      forall j | 0 <= j < |ns'| ensures Entry(ns'[j].p, ns'[j].row, ns'[j].col) == es'[j] {
        assert ns'[j] == ns[j + 1] && es'[j] == es[j + 1];
      }
      LinkedChain(ns', es');
      assert ns[0].next == ns[1];
    } else {
      assert ns[1..] == [] && es[1..] == [];
    }
  }

  /** The node-copying part of copyHelper: a fresh node per node of the
      chain from inputHead, each linked to the next as it is made. */
  method CopyNodes(inputHead: Node, ghost ins: seq<Node>, ghost ies: seq<Entry>) returns (first: Node, ghost ns: seq<Node>)
    requires ChainOf(inputHead, ins, ies)
    ensures ChainOf(first, ns, ies) && forall n :: n in ns ==> fresh(n)
  {
    ChainLength(inputHead, ins, ies);
    first := new Node(inputHead.p, inputHead.row, inputHead.col, null);
    var cur := first;
    var inputCur := inputHead.next;
    ns := [first];
    ghost var rest, restEs := ins[1..], ies[1..];
    while inputCur != null
      invariant 0 < |ns| <= |ies| && ns[0] == first && cur == ns[|ns| - 1] && cur.next == null && fresh(cur)
      invariant forall j {:trigger ns[j].next} :: 0 <= j < |ns| - 1 ==> ns[j].next == ns[j + 1]
      invariant forall j :: 0 <= j < |ns| ==> Entry(ns[j].p, ns[j].row, ns[j].col) == ies[j]
      invariant rest == ins[|ns|..] && restEs == ies[|ns|..] && ChainOf(inputCur, rest, restEs)
      invariant forall j :: 0 <= j < |ns| ==> fresh(ns[j])
      decreases |restEs|
    {
      assert ies[|ns|] == restEs[0];
      var n := new Node(inputCur.p, inputCur.row, inputCur.col, null);
      forall j | 0 <= j < |ns| - 1 ensures ns[j] != cur {
        assert ns[j].next != null;
      }
      ghost var rest', restEs' := rest[1..], restEs[1..];
      assert ChainOf(inputCur.next, rest', restEs');
      cur.next := n;
      cur := n;
      ghost var ns' := ns + [n];
      forall j | 0 <= j < |ns'| - 1 ensures ns'[j].next == ns'[j + 1] {
        assert ns'[j] == ns[j];
      }
      forall j | 0 <= j < |ns'| ensures Entry(ns'[j].p, ns'[j].row, ns'[j].col) == ies[j] {
        if j < |ns| {
          assert ns'[j] == ns[j];
        }
      }
      assert ies[|ns'|..] == restEs' && ins[|ns'|..] == rest';
      ns := ns';
      rest, restEs := rest', restEs';
      inputCur := inputCur.next;
    }
    ChainLength(inputCur, rest, restEs);
    LinkedChain(ns, ies);
  }

  class JPixels {
    var head: Node?
    var size: int
    var totalRed: int
    var totalBlue: int
    var totalGreen: int
    /** The nodes of the chain, from head on. */
    ghost var spine: seq<Node>
    /** What the chain holds, front first. */
    ghost var contents: seq<Entry>

    /** The class invariant: head starts a null-terminated chain of nodes
        holding contents, size is its length and each total is the sum of
        its channel over contents. */
    ghost predicate Valid()
      reads this, spine
    {
      && ChainOf(head, spine, contents)
      && size == |contents|
      && totalRed == Total(contents, RedBand)
      && totalGreen == Total(contents, GreenBand)
      && totalBlue == Total(contents, BlueBand)
    }

    /** JPixels(): no nodes, size and totals 0. */
    constructor ()
      ensures Valid() && contents == []
      ensures head == null && size == 0 && totalRed == 0 && totalBlue == 0 && totalGreen == 0
    {
      head := null;
      size := 0;
      totalRed := 0;
      totalBlue := 0;
      totalGreen := 0;
      spine := [];
      contents := [];
    }

    /** JPixels(input, row, col): the one-node list JPixels.h documents
        (JPixels.cpp:34 builds a temporary instead of initialising this). */
    constructor FromPixel(input: Pixel, row: int, col: int)
      ensures Valid() && contents == [Entry(input, row, col)]
      ensures size == 1 && totalRed == input.red && totalGreen == input.green && totalBlue == input.blue
    {
      head := null;
      size := 0;
      totalRed := 0;
      totalBlue := 0;
      totalGreen := 0;
      spine := [];
      contents := [];
      new;
      AddPixel(input, row, col);
    }

    /** JPixels(const JPixels &input): a deep copy of input, as JPixels.h
        documents (JPixels.cpp:41-43 clears fields it never initialised). */
    constructor Copy(input: JPixels)
      requires input.Valid()
      ensures Valid() && contents == input.contents
      ensures forall n :: n in spine ==> fresh(n)
    {
      head := null;
      size := 0;
      totalRed := 0;
      totalBlue := 0;
      totalGreen := 0;
      spine := [];
      contents := [];
      new;
      CopyHelper(input);
    }

    /** addPixel: a new node at the front; size and totals grow by it. */
    method AddPixel(iPixel: Pixel, row: int, col: int)
      requires Valid()
      modifies this
      ensures Valid() && contents == [Entry(iPixel, row, col)] + old(contents)
      ensures size == old(size) + 1
      ensures totalRed == old(totalRed) + iPixel.red
      ensures totalGreen == old(totalGreen) + iPixel.green
      ensures totalBlue == old(totalBlue) + iPixel.blue
    {
      ghost var e := Entry(iPixel, row, col);
      TotalCons(e, contents, RedBand);
      TotalCons(e, contents, GreenBand);
      TotalCons(e, contents, BlueBand);
      var cur := head;
      var n := new Node(iPixel, row, col, cur);
      assert ChainOf(n.next, spine, contents);
      ChainCons(n, spine, contents);
      head := n;
      totalRed := totalRed + iPixel.red;
      totalBlue := totalBlue + iPixel.blue;
      totalGreen := totalGreen + iPixel.green;
      size := size + 1;
      spine := [n] + spine;
      contents := [e] + contents;
    }

    /** removeFront: nothing on an empty list; otherwise the head node goes
        and its channels leave the totals. */
    method RemoveFront()
      requires Valid()
      modifies this
      ensures Valid()
      ensures old(size) == 0 ==> unchanged(this)
      ensures old(size) > 0 ==>
        && contents == old(contents)[1..] && size == old(size) - 1
        && totalRed == old(totalRed) - old(contents)[0].p.red
        && totalGreen == old(totalGreen) - old(contents)[0].p.green
        && totalBlue == old(totalBlue) - old(contents)[0].p.blue
    {
      if size > 0 {
        ghost var ns, e, es := spine[1..], contents[0], contents[1..];
        ChainLength(head.next, ns, es);
        assert [e] + es == contents;
        TotalCons(e, es, RedBand);
        TotalCons(e, es, GreenBand);
        TotalCons(e, es, BlueBand);
        var cur := head;
        head := head.next;
        totalRed := totalRed - cur.p.red;
        totalBlue := totalBlue - cur.p.blue;
        totalGreen := totalGreen - cur.p.green;
        size := size - 1;
        if size == 0 {
          head := null;
        }
        spine, contents := ns, es;
      }
    }

    /** clear: removes front nodes until none is left. */
    method Clear()
      requires Valid()
      modifies this
      ensures Valid() && contents == []
      ensures head == null && size == 0 && totalRed == 0 && totalBlue == 0 && totalGreen == 0
    {
      while size > 0
        invariant Valid()
        decreases size
      {
        RemoveFront();
      }
    }

    /** mergeHelper(inputHead): prepends, one by one, the entries of the
        chain starting at inputHead, so they end up reversed in front. */
    method MergeHelper(inputHead: Node?, ghost rest: seq<Node>, ghost es: seq<Entry>)
      requires Valid() && ChainOf(inputHead, rest, es)
      modifies this
      ensures Valid() && contents == Reverse(es) + old(contents)
      decreases |rest|
    {
      if inputHead == null {
        return;
      }
      AddPixel(inputHead.p, inputHead.row, inputHead.col);
      MergeHelper(inputHead.next, rest[1..], es[1..]);
      assert [es[0]] + old(contents) == [Entry(inputHead.p, inputHead.row, inputHead.col)] + old(contents);
      assert Reverse(es) == Reverse(es[1..]) + [es[0]];
    }

    /** merge(input): input's entries, reversed, in front of this list's;
        size and totals are the sums of both.  Merging a list into itself
        walks only the original nodes, so it is defined too. */
    method Merge(input: JPixels)
      requires Valid() && input.Valid()
      modifies this
      ensures Valid() && contents == Reverse(old(input.contents)) + old(contents)
      ensures size == old(size) + old(input.size)
      ensures totalRed == old(totalRed) + old(input.totalRed)
      ensures totalGreen == old(totalGreen) + old(input.totalGreen)
      ensures totalBlue == old(totalBlue) + old(input.totalBlue)
      ensures input != this ==> unchanged(input)
    {
      ghost var es := input.contents;
      MergeHelper(input.head, input.spine, input.contents);
      TotalAppend(Reverse(es), old(contents), RedBand);
      TotalAppend(Reverse(es), old(contents), GreenBand);
      TotalAppend(Reverse(es), old(contents), BlueBand);
      TotalReverse(es, RedBand);
      TotalReverse(es, GreenBand);
      TotalReverse(es, BlueBand);
    }

    /** copyHelper(input): nothing on self-assignment; otherwise clears
        this list and rebuilds it from fresh nodes holding input's entries
        in order, with input's size and totals. */
    method CopyHelper(input: JPixels)
      requires Valid() && input.Valid()
      modifies this
      ensures Valid() && contents == old(input.contents)
      ensures input == this ==> unchanged(this)
      ensures input != this ==> unchanged(input) && forall n :: n in spine ==> fresh(n)
    {
      if this == input {
        return;
      }

      Clear();

      if input.head != null {
        size := input.size;
        totalRed := input.totalRed;
        totalBlue := input.totalBlue;
        totalGreen := input.totalGreen;
        var first, ns := CopyNodes(input.head, input.spine, input.contents);
        head := first;
        spine, contents := ns, input.contents;
      }
    }

    /** operator=: copyHelper, then this list itself. */
    method Assign(input: JPixels) returns (r: JPixels)
      requires Valid() && input.Valid()
      modifies this
      ensures r == this && Valid() && contents == old(input.contents)
      ensures input == this ==> unchanged(this)
      ensures input != this ==> unchanged(input) && forall n :: n in spine ==> fresh(n)
    {
      CopyHelper(input);
      r := this;
    }

    /** operator==: size and totals first, then the nodes pairwise. */
    method Equals(input: JPixels) returns (b: bool)
      requires Valid() && input.Valid()
      ensures b <==> contents == input.contents
    {
      if input.size != size || input.totalRed != totalRed || input.totalBlue != totalBlue ||
         input.totalGreen != totalGreen {
        return false;
      }
      var cur := head;
      var inputCur := input.head;
      ghost var ns, es, ins, ies := spine, contents, input.spine, input.contents;
      ChainLength(head, spine, contents);
      ChainLength(input.head, input.spine, input.contents);
      while cur != null
        invariant ChainOf(cur, ns, es) && ChainOf(inputCur, ins, ies) && |ns| == |ins|
        invariant (contents == input.contents) <==> (es == ies)
        decreases |ns|
      {
        ChainLength(cur, ns, es);
        ChainLength(inputCur, ins, ies);
        if cur.p.red != inputCur.p.red || cur.p.blue != inputCur.p.blue ||
           cur.p.green != inputCur.p.green || cur.row != inputCur.row ||
           cur.col != inputCur.col {
          assert es[0] != ies[0];
          return false;
        }
        assert es == [es[0]] + es[1..] && ies == [ies[0]] + ies[1..];
        cur := cur.next;
        inputCur := inputCur.next;
        ns, es, ins, ies := ns[1..], es[1..], ins[1..], ies[1..];
      }
      ChainLength(inputCur, ins, ies);
      return true;
    }

    /** operator!=: the negation of operator==. */
    method NotEquals(input: JPixels) returns (b: bool)
      requires Valid() && input.Valid()
      ensures b <==> contents != input.contents
    {
      var eq := Equals(input);
      b := !eq;
    }

    /** getSize: the number of nodes. */
    function GetSize(): (n: int)
      reads this, spine
      requires Valid()
      ensures n == |contents| && n == |spine|
    {
      ChainLength(head, spine, contents);
      size
    }

    /** getFrontRow: the first node's row, or -1 on an empty list. */
    function GetFrontRow(): (r: int)
      reads this, spine
      requires Valid()
      ensures r == if contents == [] then -1 else contents[0].row
    {
      if head == null then -1 else head.row
    }

    /** getFrontCol: the first node's col, or -1 on an empty list. */
    function GetFrontCol(): (c: int)
      reads this, spine
      requires Valid()
      ensures c == if contents == [] then -1 else contents[0].col
    {
      if head == null then -1 else head.col
    }

    /** averageColor: each channel is its total divided by size, truncated.
        An empty list would divide by zero, so size must be positive. */
    function AverageColor(): (a: Pixel)
      reads this, spine
      requires Valid() && size > 0
      ensures a.red == Mean(Levels(contents, RedBand))
      ensures a.green == Mean(Levels(contents, GreenBand))
      ensures a.blue == Mean(Levels(contents, BlueBand))
    {
      MeanBetween(Levels(contents, RedBand), 0, 255);
      MeanBetween(Levels(contents, GreenBand), 0, 255);
      MeanBetween(Levels(contents, BlueBand), 0, 255);
      Pixel(totalRed / size, totalGreen / size, totalBlue / size)
    }
  }

  /** Each channel of the average lies between the smallest and largest
      value of that channel in the list. */
  lemma AverageWithinList(list: JPixels, b: Band)
    requires list.Valid() && list.size > 0
    ensures Min(Levels(list.contents, b)) <= LevelOf(list.AverageColor(), b) <= Max(Levels(list.contents, b))
  {
    MeanWithinRange(Levels(list.contents, b));
  }

  /** A list whose nodes all hold one pixel averages to that pixel. */
  lemma AverageOfUniform(list: JPixels, p: Pixel)
    requires list.Valid() && list.size > 0
    requires forall k :: 0 <= k < |list.contents| ==> list.contents[k].p == p
    ensures list.AverageColor() == p
  {
    MeanBetween(Levels(list.contents, RedBand), p.red, p.red);
    MeanBetween(Levels(list.contents, GreenBand), p.green, p.green);
    MeanBetween(Levels(list.contents, BlueBand), p.blue, p.blue);
  }

  /** Merging reverses the other list in front: the front entry after a
      merge of a non-empty list is input's last entry. */
  lemma {:induction false} ReverseAt<T>(s: seq<T>, k: nat)
    requires k < |s|
    ensures Reverse(s)[k] == s[|s| - 1 - k]
  {
    if k < |s| - 1 {
      ReverseAt(s[1..], k);
    }
  }

  /** Reversing twice gives the list back. */
  lemma {:induction false} ReverseTwice<T>(s: seq<T>)
    ensures Reverse(Reverse(s)) == s
  {
    forall k | 0 <= k < |s| ensures Reverse(Reverse(s))[k] == s[k] {
      ReverseAt(Reverse(s), k);
      ReverseAt(s, |s| - 1 - k);
    }
  }
}
