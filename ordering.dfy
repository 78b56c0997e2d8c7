/**
 * LINQ's `OrderBy(m => m.SentAt)` and `OrderByDescending(m => m.SentAt)` over
 * message ids, as a stable insertion sort keyed by the message's SentAt.
 */
module Ordering {
  import opened Domain
  import opened Lookup

  datatype Direction = Ascending | Descending

  predicate AllIn(messages: map<MessageId, Message>, s: seq<MessageId>) {
    forall i | 0 <= i < |s| :: s[i] in messages
  }

  /** `a` may stand before `b` in the given direction. */
  predicate Precedes(messages: map<MessageId, Message>, a: MessageId, b: MessageId, dir: Direction)
    requires a in messages && b in messages
  {
    if dir == Ascending then messages[a].sentAt <= messages[b].sentAt
    else messages[a].sentAt >= messages[b].sentAt
  }

  predicate SortedBy(messages: map<MessageId, Message>, s: seq<MessageId>, dir: Direction)
    requires AllIn(messages, s)
  {
    forall i, j | 0 <= i < j < |s| :: Precedes(messages, s[i], s[j], dir)
  }

  /** The head of a sorted sequence may precede every later element. */
  lemma HeadPrecedes(messages: map<MessageId, Message>, s: seq<MessageId>, y: MessageId, dir: Direction)
    requires AllIn(messages, s) && SortedBy(messages, s, dir)
    requires s != [] && y in s[1..]
    ensures Precedes(messages, s[0], y, dir)
  {
    var j :| 0 <= j < |s[1..]| && s[1..][j] == y;
    assert s[j + 1] == y;
  }

  /** The head of a sorted sequence may precede everything inserted after it. */
  lemma HeadPrecedesAll(messages: map<MessageId, Message>, s: seq<MessageId>, x: MessageId,
                        rest: seq<MessageId>, dir: Direction)
    requires x in messages && AllIn(messages, s) && SortedBy(messages, s, dir)
    requires s != [] && !Precedes(messages, x, s[0], dir)
    requires forall y :: y in rest <==> y == x || y in s[1..]
    ensures forall y | y in rest :: y in messages && Precedes(messages, s[0], y, dir)
  {
    forall y | y in rest ensures y in messages && Precedes(messages, s[0], y, dir) {
      if y != x {
        HeadPrecedes(messages, s, y, dir);
      }
    }
  }

  /** Puts `x` before the first element it may precede, after all it may not. */
  function Insert(messages: map<MessageId, Message>, x: MessageId, s: seq<MessageId>, dir: Direction): (r: seq<MessageId>)
    requires x in messages && AllIn(messages, s)
    requires SortedBy(messages, s, dir)
    ensures multiset(r) == multiset(s) + multiset{x}
    ensures forall y :: y in r <==> y == x || y in s
    ensures AllIn(messages, r)
    ensures SortedBy(messages, r, dir)
  {
    if s == [] || Precedes(messages, x, s[0], dir) then
      [x] + s
    else
      var rest := Insert(messages, x, s[1..], dir);
      HeadPrecedesAll(messages, s, x, rest, dir);
      assert s == [s[0]] + s[1..];
      [s[0]] + rest
  }

  /** A stable sort of `s` by SentAt in the given direction. */
  function SortBy(messages: map<MessageId, Message>, s: seq<MessageId>, dir: Direction): (r: seq<MessageId>)
    requires AllIn(messages, s)
    ensures multiset(r) == multiset(s)
    ensures forall y :: y in r <==> y in s
    ensures |r| == |s|
    ensures AllIn(messages, r)
    ensures SortedBy(messages, r, dir)
  {
    if s == [] then []
    else
      assert s == [s[0]] + s[1..];
      Insert(messages, s[0], SortBy(messages, s[1..], dir), dir)
  }

  /** The head of a sequence sorted newest-first is at least as new as every element. */
  lemma {:induction false} NewestFirst(messages: map<MessageId, Message>, s: seq<MessageId>, y: MessageId)
    requires AllIn(messages, s) && SortedBy(messages, s, Descending)
    requires y in s
    ensures messages[y].sentAt <= messages[s[0]].sentAt
  {
    var j :| 0 <= j < |s| && s[j] == y;
    if j > 0 {
      assert Precedes(messages, s[0], s[j], Descending);
    }
  }

  /** The ids of a scan that name a message of the given chat, in scan order. */
  function InChat(messages: map<MessageId, Message>, scan: seq<MessageId>, chatId: ChatId): (r: seq<MessageId>)
    ensures AllIn(messages, r)
    ensures forall m :: m in r <==> m in scan && m in messages && messages[m].chatId == chatId
    ensures |r| <= |scan|
    ensures Subsequence(r, scan)
    ensures forall m :: multiset(r)[m] == if m in messages && messages[m].chatId == chatId then multiset(scan)[m] else 0
  {
    if scan == [] then []
    else
      var rest := InChat(messages, scan[1..], chatId);
      assert scan == [scan[0]] + scan[1..];
      if scan[0] in messages && messages[scan[0]].chatId == chatId then
        assert ([scan[0]] + rest)[1..] == rest;
        [scan[0]] + rest
      else
        assert rest != [] ==> rest[0] in rest && rest[0] != scan[0];
        rest
  }
}
