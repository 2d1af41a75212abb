/** DER "SEQUENCE OF": the parser that splits one into a linked list of its elements. */
module Asn1Sequence {
  import opened Numbers
  import opened MpiBytes
  import opened Der
  import opened Asn1Parse

  /** mbedtls_asn1_sequence */
  class Cell {
    var buf: Buf
    var next: Cell?

    /** calloc */
    constructor ()
      ensures buf == NO_BUF && next == null
    {
      buf := NO_BUF;
      next := null;
    }
  }

  // ---------------------------------------------------------------- what a list of elements is

  /** c is the elements with the given tag and these contents, one after the other. */
  ghost predicate Listed(c: seq<byte>, tag: byte, items: seq<seq<byte>>)
    decreases |items|
  {
    if items == [] then c == []
    else exists n: nat :: First(c, tag, n, items[0]) && Listed(c[1 + n + |items[0]|..], tag, items[1..])
  }

  ghost predicate First(c: seq<byte>, tag: byte, n: nat, item: seq<byte>)
  {
    Element(c, tag, n, |item|) && Content(c, n, |item|) == item
  }

  /** The first element decides how a list of them goes on. */
  lemma ListedStep(c: seq<byte>, tag: byte, n: nat, len: nat, items: seq<seq<byte>>)
    requires Element(c, tag, n, len)
    ensures Listed(c, tag, items) <==>
      |items| > 0 && items[0] == Content(c, n, len) && Listed(c[1 + n + len..], tag, items[1..])
  {
    hide IsLen;
    if Listed(c, tag, items) {
      ListedHas(c, tag, n, len, items);
    }
    if |items| > 0 && items[0] == Content(c, n, len) && Listed(c[1 + n + len..], tag, items[1..]) {
      assert First(c, tag, n, items[0]);
    }
  }

  lemma ListedHas(c: seq<byte>, tag: byte, n: nat, len: nat, items: seq<seq<byte>>)
    requires Element(c, tag, n, len) && Listed(c, tag, items)
    ensures |items| > 0 && items[0] == Content(c, n, len) && Listed(c[1 + n + len..], tag, items[1..])
  {
    hide IsLen;
    var m: nat :| First(c, tag, m, items[0]) && Listed(c[1 + m + |items[0]|..], tag, items[1..]);
    ElementUnique(c, tag, n, len, m, |items[0]|);
  }

  lemma {:induction false} ListedUnique(c: seq<byte>, tag: byte, a: seq<seq<byte>>, b: seq<seq<byte>>)
    requires Listed(c, tag, a) && Listed(c, tag, b)
    ensures a == b
    decreases |a|
  {
    hide *;
    if a == [] {
      NoneListed(c, tag, b);
    } else {
      var n := ListedFirst(c, tag, a);
      ListedStep(c, tag, n, |a[0]|, b);
      ListedUnique(c[1 + n + |a[0]|..], tag, a[1..], b[1..]);
      assert a == [a[0]] + a[1..] && b == [b[0]] + b[1..];
    }
  }

  lemma ListedFirst(c: seq<byte>, tag: byte, a: seq<seq<byte>>) returns (n: nat)
    requires a != [] && Listed(c, tag, a)
    ensures 1 + n + |a[0]| <= |c| && Element(c, tag, n, |a[0]|) && Content(c, n, |a[0]|) == a[0]
    ensures Listed(c[1 + n + |a[0]|..], tag, a[1..])
  {
    hide IsLen;
    n :| First(c, tag, n, a[0]) && Listed(c[1 + n + |a[0]|..], tag, a[1..]);
  }

  lemma NoneListed(c: seq<byte>, tag: byte, items: seq<seq<byte>>)
    requires Listed(c, tag, []) && Listed(c, tag, items)
    ensures items == []
  {
    hide IsLen;
    NoneInNothing(tag, items);
  }

  lemma NoneInNothing(tag: byte, items: seq<seq<byte>>)
    ensures Listed([], tag, items) ==> items == []
  {
    hide IsLen;
  }

  function Concat(tag: byte, items: seq<seq<byte>>): seq<byte>
    requires forall i :: 0 <= i < |items| ==> |items[i]| < LENGTHS
  {
    if items == [] then [] else Tlv(tag, items[0]) + Concat(tag, items[1..])
  }

  lemma {:induction false} ConcatListed(tag: byte, items: seq<seq<byte>>)
    requires forall i :: 0 <= i < |items| ==> |items[i]| < LENGTHS
    ensures Listed(Concat(tag, items), tag, items)
  {
    hide LenCode, IsLen, Tlv;
    if items != [] {
      ConcatListed(tag, items[1..]);
      TlvReads(tag, items[0], Concat(tag, items[1..]));
      assert First(Concat(tag, items), tag, |LenCode(|items[0]|)|, items[0]);
    }
  }

  ghost predicate IsSequenceOf(b: seq<byte>, tag: byte, n: nat, len: nat, items: seq<seq<byte>>)
  {
    Element(b, SEQUENCE, n, len) && 1 + n + len == |b| && Listed(Content(b, n, len), tag, items)
  }

  ghost predicate NoSequenceOf(b: seq<byte>, tag: byte)
  {
    forall n: nat, len: nat, items: seq<seq<byte>> :: !IsSequenceOf(b, tag, n, len, items)
  }

  lemma NoneIsNoSequence(b: seq<byte>, tag: byte)
    requires NoElement(b, SEQUENCE)
    ensures NoSequenceOf(b, tag)
  {
    hide Head, Listed;
  }

  lemma NotThisSequence(b: seq<byte>, tag: byte, n: nat, len: nat)
    requires Element(b, SEQUENCE, n, len)
    requires 1 + n + len != |b| || Unlistable(Content(b, n, len), tag)
    ensures NoSequenceOf(b, tag)
  {
    hide IsLen, Listed;
    forall m: nat, l: nat, items: seq<seq<byte>> | IsSequenceOf(b, tag, m, l, items)
      ensures false
    {
      ElementUnique(b, SEQUENCE, n, len, m, l);
    }
  }

  ghost predicate Unlistable(c: seq<byte>, tag: byte)
  {
    forall items: seq<seq<byte>> :: !Listed(c, tag, items)
  }

  /** Which error the list c gets: that of the first element that is none. */
  ghost predicate ListFails(c: seq<byte>, tag: byte, v: Verdict)
    decreases |c|
  {
    c != [] &&
    if NoElement(c, tag) then v == TagVerdict(c, tag)
    else exists n: nat, len: nat :: Element(c, tag, n, len) && ListFails(c[1 + n + len..], tag, v)
  }

  /** Which error an input that is no SEQUENCE OF gets. */
  ghost predicate SequenceFails(b: seq<byte>, tag: byte, v: Verdict)
  {
    if NoElement(b, SEQUENCE) then v == TagVerdict(b, SEQUENCE)
    else
      exists n: nat, len: nat ::
        Element(b, SEQUENCE, n, len) &&
        if 1 + n + len != |b| then v == LengthMismatch else ListFails(Content(b, n, len), tag, v)
  }

  /** The errors of what follows an element are the errors of the whole. */
  lemma FailsLater(c: seq<byte>, tag: byte, n: nat, len: nat, v: Verdict)
    requires Element(c, tag, n, len)
    ensures ListFails(c[1 + n + len..], tag, v) ==> ListFails(c, tag, v)
  {
    hide IsLen;
    HasElement(c, tag, n, len);
  }

  lemma FailsHere(c: seq<byte>, tag: byte)
    requires c != [] && NoElement(c, tag)
    ensures ListFails(c, tag, TagVerdict(c, tag))
  {
  }

  /** After the elements `done`, the rest of c decides. */
  ghost predicate Follows(c: seq<byte>, tag: byte, done: seq<seq<byte>>, rest: seq<byte>)
  {
    forall items: seq<seq<byte>> :: Listed(rest, tag, items) <==> Listed(c, tag, done + items)
  }

  /** Every list of c begins with done. */
  ghost predicate Begins(c: seq<byte>, tag: byte, done: seq<seq<byte>>)
  {
    forall items: seq<seq<byte>> :: Listed(c, tag, items) ==> done <= items
  }

  lemma FollowsStep(c: seq<byte>, tag: byte, done: seq<seq<byte>>, rest: seq<byte>, n: nat, len: nat)
    requires Follows(c, tag, done, rest) && Begins(c, tag, done) && Element(rest, tag, n, len)
    ensures Follows(c, tag, done + [Content(rest, n, len)], rest[1 + n + len..])
    ensures Begins(c, tag, done + [Content(rest, n, len)])
  {
    hide IsLen, Listed;
    var x := Content(rest, n, len);
    var tail := rest[1 + n + len..];
    forall items: seq<seq<byte>>
      ensures Listed(tail, tag, items) <==> Listed(c, tag, done + [x] + items)
    {
      ListedStep(rest, tag, n, len, [x] + items);
      assert ([x] + items)[1..] == items;
      assert done + [x] + items == done + ([x] + items);
    }
    forall items: seq<seq<byte>> | Listed(c, tag, items)
      ensures done + [x] <= items
    {
      var more := items[|done|..];
      assert items == done + more;
      ListedStep(rest, tag, n, len, more);
    }
  }

  lemma FollowsNothing(c: seq<byte>, tag: byte)
    ensures Follows(c, tag, [], c) && Begins(c, tag, [])
  {
    hide Listed;
    forall items: seq<seq<byte>>
      ensures [] + items == items
    {
    }
  }

  lemma FollowsEnd(c: seq<byte>, tag: byte, done: seq<seq<byte>>)
    requires Follows(c, tag, done, [])
    ensures Listed(c, tag, done)
  {
    assert Listed([], tag, []);
    assert done + [] == done;
    hide Listed;
  }

  lemma NotListed(rest: seq<byte>, tag: byte, items: seq<seq<byte>>)
    requires rest != [] && NoElement(rest, tag)
    ensures !Listed(rest, tag, items)
  {
    hide Element;
    if items != [] {
      forall n: nat
        ensures !First(rest, tag, n, items[0])
      {
        assert !Element(rest, tag, n, |items[0]|);
      }
    }
  }

  lemma FollowsBroken(c: seq<byte>, tag: byte, done: seq<seq<byte>>, rest: seq<byte>)
    requires Follows(c, tag, done, rest) && Begins(c, tag, done)
    requires rest != [] && NoElement(rest, tag)
    ensures Unlistable(c, tag)
  {
    hide Listed, NoElement;
    forall items: seq<seq<byte>>
      ensures !Listed(c, tag, items)
    {
      if Listed(c, tag, items) {
        assert items == done + items[|done|..];
      }
      NotListed(rest, tag, if |items| < |done| then [] else items[|done|..]);
    }
  }

  // ---------------------------------------------------------------- the linked list

  /** chain is the list that starts at cur: linked in order and ended by null. */
  ghost predicate Chain(cur: Cell, chain: seq<Cell>)
    reads chain
  {
    |chain| > 0 && chain[0] == cur && chain[|chain| - 1].next == null && Linked(chain)
  }

  ghost predicate Linked(chain: seq<Cell>)
    reads chain
  {
    (forall i :: 0 <= i < |chain| - 1 ==> chain[i].next == chain[i + 1]) &&
    (forall i, j :: 0 <= i < j < |chain| ==> chain[i] != chain[j])
  }

  /** The first cells hold the items. */
  ghost predicate Holds(data: seq<byte>, tag: byte, chain: seq<Cell>, items: seq<seq<byte>>)
    reads chain
  {
    |items| <= |chain| &&
    forall i :: 0 <= i < |items| ==> Cuts(data, tag, chain[i].buf, items[i])
  }

  ghost predicate Cuts(data: seq<byte>, tag: byte, b: Buf, item: seq<byte>)
  {
    b.tag == tag && b.at + b.len <= |data| && data[b.at..b.at + b.len] == item
  }

  /** mbedtls_asn1_get_sequence_of. cur is the caller's cell and the list's first; an empty SEQUENCE leaves its buf as it
      was. The source's last test of *p against end cannot fail, so it has no branch here. */
  method GetSequenceOf(data: seq<byte>, p: nat, end: nat, cur: Cell, tag: byte)
    returns (ret: Verdict, q: nat, ghost chain: seq<Cell>, ghost items: seq<seq<byte>>)
    requires end <= |data|
    modifies cur
    ensures ret == Parsed ==> q == end && exists n: nat, len: nat :: IsSequenceOf(Rest(data, p, end), tag, n, len, items)
    ensures ret == Parsed ==> Chain(cur, chain) && Holds(data, tag, chain, items) && fresh(set c | c in chain && c != cur)
    ensures ret == Parsed ==> |chain| == (if items == [] then 1 else |items|) && (items == [] ==> cur.buf == old(cur.buf))
    ensures ret != Parsed ==> NoSequenceOf(Rest(data, p, end), tag) && SequenceFails(Rest(data, p, end), tag, ret)
  {
    hide IsLen, Listed, Chain, Holds, ListFails, NoElement, TagVerdict;
    chain, items := [cur], [];
    var len;
    ghost var b := Rest(data, p, end);
    ret, q, len := GetTag(data, p, end, SEQUENCE);
    if ret != Parsed {
      NoneIsNoSequence(b, tag);
      return;
    }
    ghost var n := q - p - 1;
    HasElement(b, SEQUENCE, n, len);
    if q + len != end {
      NotThisSequence(b, tag, n, len);
      return LengthMismatch, q, chain, items;
    }
    assert Content(b, n, len) == data[q..end];
    ret, q, chain, items := Split(data, q, end, cur, tag);
    if ret != Parsed {
      NotThisSequence(b, tag, n, len);
      return;
    }
    assert IsSequenceOf(b, tag, n, len, items);
  }

  /** What the loop has built: a list from first to cur, whose cells hold the items. */
  ghost predicate Built(data: seq<byte>, tag: byte, first: Cell, cur: Cell, chain: seq<Cell>, items: seq<seq<byte>>)
    reads chain
  {
    |chain| > 0 && chain[0] == first && chain[|chain| - 1] == cur && Linked(chain) && Holds(data, tag, chain, items)
  }

  /** `buf->tag = **p`, on the cell that holds no item yet. */
  method Mark(ghost data: seq<byte>, ghost tag: byte, ghost first: Cell, cur: Cell, ghost chain: seq<Cell>,
    ghost items: seq<seq<byte>>, t: byte)
    requires Built(data, tag, first, cur, chain, items) && |chain| == |items| + 1
    modifies cur`buf
    ensures Built(data, tag, first, cur, chain, items) && cur.buf.tag == t
  {
    hide Cuts;
    cur.buf := cur.buf.(tag := t);
  }

  /** `buf->p = *p`, on the cell that holds no item yet. */
  method Record(data: seq<byte>, tag: byte, ghost first: Cell, cur: Cell, ghost chain: seq<Cell>, ghost items: seq<seq<byte>>,
    b: Buf, ghost item: seq<byte>)
    requires Built(data, tag, first, cur, chain, items) && |chain| == |items| + 1 && Cuts(data, tag, b, item)
    modifies cur`buf
    ensures Built(data, tag, first, cur, chain, items + [item])
    ensures cur.buf == b
  {
    hide Cuts;
    cur.buf := b;
  }

  /** A new last cell. */
  method Extend(ghost data: seq<byte>, ghost tag: byte, ghost first: Cell, cur: Cell, ghost chain: seq<Cell>,
    ghost items: seq<seq<byte>>) returns (cell: Cell)
    requires Built(data, tag, first, cur, chain, items)
    modifies cur`next
    ensures fresh(cell) && Built(data, tag, first, cell, chain + [cell], items)
  {
    hide Cuts;
    cell := new Cell();
    cur.next := cell;
    assert forall i :: 0 <= i < |chain| ==> (chain + [cell])[i] == chain[i] && chain[i] != cell;
  }

  /** The loop over the elements. */
  method Split(data: seq<byte>, p: nat, end: nat, first: Cell, tag: byte)
    returns (ret: Verdict, q: nat, ghost chain: seq<Cell>, ghost items: seq<seq<byte>>)
    requires p <= end <= |data|
    modifies first
    ensures ret == Parsed ==> q == end && Listed(data[p..end], tag, items)
    ensures ret == Parsed ==> Chain(first, chain) && Holds(data, tag, chain, items) && fresh(set c | c in chain && c != first)
    ensures ret == Parsed ==> |chain| == (if items == [] then 1 else |items|) && (items == [] ==> first.buf == old(first.buf))
    ensures ret != Parsed ==> Unlistable(data[p..end], tag) && ListFails(data[p..end], tag, ret)
  {
    hide IsLen, Head, Listed, Element, Follows, Begins, Cuts, Built, ListFails, NoElement, TagVerdict;
    ghost var c := data[p..end];
    FollowsNothing(c, tag);
    var cur := first;
    chain, items, q := [first], [], p;
    BuiltOne(data, tag, first);
    while q < end
      invariant p <= q <= end && (cur == first || fresh(cur))
      invariant Follows(c, tag, items, data[q..end]) && Begins(c, tag, items)
      invariant forall v :: ListFails(data[q..end], tag, v) ==> ListFails(c, tag, v)
      invariant Built(data, tag, first, cur, chain, items)
      invariant |chain| == if q < end || items == [] then |items| + 1 else |items|
      invariant fresh(set x | x in chain && x != first) && (items == [] ==> first.buf == old(first.buf))
      decreases end - q
    {
      var len;
      ghost var start := q;
      Mark(data, tag, first, cur, chain, items, data[q]);
      ret, q, len := GetTag(data, q, end, tag);
      if ret != Parsed {
        FollowsBroken(c, tag, items, data[start..end]);
        FailsHere(data[start..end], tag);
        return;
      }
      ghost var item := data[q..q + len];
      FollowsStep(c, tag, items, data[start..end], q - start - 1, len);
      CutIs(data, start, end, q - start - 1, len, tag);
      forall v | ListFails(data[q + len..end], tag, v)
        ensures ListFails(c, tag, v)
      {
        FailsLater(data[start..end], tag, q - start - 1, len, v);
      }
      Record(data, tag, first, cur, chain, items, Buf(cur.buf.tag, q, len), item);
      q := q + len;
      items := items + [item];
      if q < end {
        cur := Extend(data, tag, first, cur, chain, items);
        chain := chain + [cur];
      }
    }
    Close(data, tag, first, cur, chain, items);
    ret := Parsed;
    assert data[end..end] == [];
    FollowsEnd(c, tag, items);
  }

  lemma BuiltOne(data: seq<byte>, tag: byte, first: Cell)
    ensures Built(data, tag, first, first, [first], [])
  {
  }

  /** `cur->next = NULL` */
  method Close(ghost data: seq<byte>, ghost tag: byte, ghost first: Cell, cur: Cell, ghost chain: seq<Cell>,
    ghost items: seq<seq<byte>>)
    requires Built(data, tag, first, cur, chain, items)
    modifies cur`next
    ensures Chain(first, chain) && Holds(data, tag, chain, items)
  {
    hide Cuts;
    cur.next := null;
  }

  lemma CutIs(data: seq<byte>, start: nat, end: nat, n: nat, len: nat, tag: byte)
    requires start + 1 + n + len <= end <= |data| && Element(data[start..end], tag, n, len)
    ensures Content(data[start..end], n, len) == data[start + 1 + n..start + 1 + n + len]
    ensures data[start..end][1 + n + len..] == data[start + 1 + n + len..end]
    ensures Cuts(data, data[start], Buf(data[start], start + 1 + n, len), data[start + 1 + n..start + 1 + n + len])
    ensures data[start] == tag
  {
    hide IsLen;
    SliceSlice(data, start, end, 1 + n, 1 + n + len);
    SliceSlice(data, start, end, 1 + n + len, end - start);
  }

  /** Reading a SEQUENCE of any elements gives them back, in order. */
  method SequenceComesBack(values: seq<seq<byte>>, cur: Cell, tag: byte)
    returns (ret: Verdict, q: nat, ghost chain: seq<Cell>)
    requires forall i :: 0 <= i < |values| ==> |values[i]| < LENGTHS
    requires |Concat(tag, values)| < LENGTHS
    modifies cur
    ensures ret == Parsed && q == |Tlv(SEQUENCE, Concat(tag, values))|
    ensures Chain(cur, chain) && Holds(Tlv(SEQUENCE, Concat(tag, values)), tag, chain, values)
    ensures |chain| == if values == [] then 1 else |values|
  {
    hide IsLen, LenCode, Listed, Concat, Tlv, Rest, Chain, Holds;
    var c := Concat(tag, values);
    var data := Tlv(SEQUENCE, c);
    ConcatListed(tag, values);
    TlvReads(SEQUENCE, c, []);
    TlvSize(SEQUENCE, c);
    assert data + [] == data;
    RestAll(data);
    assert IsSequenceOf(data, tag, |LenCode(|c|)|, |c|, values);
    ghost var items;
    ret, q, chain, items := GetSequenceOf(data, 0, |data|, cur, tag);
    ghost var n: nat, len: nat :| IsSequenceOf(data, tag, n, len, items);
    ElementUnique(data, SEQUENCE, n, len, |LenCode(|c|)|, |c|);
    ListedUnique(c, tag, items, values);
  }

  lemma RestAll(data: seq<byte>)
    ensures Rest(data, 0, |data|) == data
  {
  }
}
