/**
 * The messages of a conversation and the children of a message: those whose
 * `parent_message_uuid` is its `uuid`, in ascending `created_at` order, ties
 * kept in the order the conversation lists them (the sort is stable).
 */
module Conversation {
  import opened Maybe

  /**
   * One entry of `chat_messages`. `parentUuid` is `None` where the parent
   * link is `null`; `createdAt` is the creation time as a number.
   */
  datatype Message = Message(uuid: string, parentUuid: Option<string>, sender: string, text: string,
                             index: int, createdAt: int)

  /** The conversation as fetched: its list of messages. */
  datatype Payload = Payload(chatMessages: seq<Message>)

  /** `m.parent_message_uuid === uuid`. */
  predicate IsChildOf(m: Message, uuid: string)
  {
    m.parentUuid == Some(uuid)
  }

  /** `chat_messages.filter(m => m.parent_message_uuid === uuid)`: the children, in listed order. */
  function ChildMessages(messages: seq<Message>, uuid: string): seq<Message>
  {
    if messages == [] then []
    else (if IsChildOf(messages[0], uuid) then [messages[0]] else []) + ChildMessages(messages[1..], uuid)
  }

  /**
   * The filter keeps exactly the children of `uuid`: each as often as
   * `messages` lists it, and nothing else.
   */
  lemma {:induction false} ChildMessagesFilter(messages: seq<Message>, uuid: string)
    ensures var r := ChildMessages(messages, uuid);
            && (forall i :: 0 <= i < |r| ==> IsChildOf(r[i], uuid))
            && forall m :: multiset(r)[m] == if IsChildOf(m, uuid) then multiset(messages)[m] else 0
    decreases |messages|
  {
    if messages != [] {
      ChildMessagesFilter(messages[1..], uuid);
      assert messages == [messages[0]] + messages[1..];
      var head := if IsChildOf(messages[0], uuid) then [messages[0]] else [];
      var rest := ChildMessages(messages[1..], uuid);
      var r := ChildMessages(messages, uuid);
      assert r == head + rest;
      forall i | 0 <= i < |r|
        ensures IsChildOf(r[i], uuid)
      {
        if i >= |head| {
          assert r[i] == rest[i - |head|];
        }
      }
    }
  }

  /** `a` is `b` with some elements left out: its elements appear in `b` in the same order. */
  predicate Subsequence(a: seq<Message>, b: seq<Message>)
    decreases |b|
  {
    a == [] || (b != [] && ((a[0] == b[0] && Subsequence(a[1..], b[1..])) || Subsequence(a, b[1..])))
  }

  /** The filter keeps the listed order: its result is a subsequence of the listed messages. */
  lemma {:induction false} ChildMessagesInOrder(messages: seq<Message>, uuid: string)
    ensures Subsequence(ChildMessages(messages, uuid), messages)
    decreases |messages|
  {
    if messages != [] {
      ChildMessagesInOrder(messages[1..], uuid);
      var r := ChildMessages(messages, uuid);
      if IsChildOf(messages[0], uuid) {
        assert r[0] == messages[0] && r[1..] == ChildMessages(messages[1..], uuid);
      } else {
        assert r == ChildMessages(messages[1..], uuid);
      }
    }
  }

  /** The children of `uuid` in a sequence with `a` in front. */
  lemma ChildMessagesCons(a: Message, r: seq<Message>, uuid: string)
    ensures ChildMessages([a] + r, uuid) == (if IsChildOf(a, uuid) then [a] else []) + ChildMessages(r, uuid)
  {
    assert ([a] + r)[1..] == r;
  }

  /** The messages are in ascending `createdAt` order. */
  predicate Sorted(s: seq<Message>)
  {
    forall i, j :: 0 <= i < j < |s| ==> s[i].createdAt <= s[j].createdAt
  }

  /** `x` inserted into `s` before the first message created no earlier than it. */
  function Insert(x: Message, s: seq<Message>): (r: seq<Message>)
    ensures |r| == |s| + 1
    ensures multiset(r) == multiset(s) + multiset{x}
    ensures r[0] == x || (s != [] && r[0] == s[0])
  {
    if s == [] || x.createdAt <= s[0].createdAt then [x] + s
    else
      assert s == [s[0]] + s[1..];
      [s[0]] + Insert(x, s[1..])
  }

  /** A message created no later than the first of a sorted sequence can go in front of it. */
  lemma SortedCons(a: Message, r: seq<Message>)
    requires Sorted(r)
    requires r == [] || a.createdAt <= r[0].createdAt
    ensures Sorted([a] + r)
  {
    var t := [a] + r;
    forall i, j | 0 <= i < j < |t|
      ensures t[i].createdAt <= t[j].createdAt
    {
      if i == 0 && j > 1 {
        assert t[j] == r[j - 1];
      }
    }
  }

  /** Inserting into a sorted sequence keeps it sorted. */
  lemma {:induction false} InsertSorted(x: Message, s: seq<Message>)
    requires Sorted(s)
    ensures Sorted(Insert(x, s))
    decreases |s|
  {
    if s == [] || x.createdAt <= s[0].createdAt {
      SortedCons(x, s);
    } else {
      var r := Insert(x, s[1..]);
      assert Sorted(s[1..]) by {
        forall i, j | 0 <= i < j < |s| - 1
          ensures s[1..][i].createdAt <= s[1..][j].createdAt
        {
          assert s[1..][i] == s[i + 1] && s[1..][j] == s[j + 1];
        }
      }
      InsertSorted(x, s[1..]);
      assert r[0] == x || r[0] == s[1];
      SortedCons(s[0], r);
    }
  }

  /**
   * `sort((a, b) => a.created_at - b.created_at)`: ascending creation time;
   * the sort is stable, so messages created at the same time keep their order.
   */
  function SortByCreated(s: seq<Message>): seq<Message>
  {
    if s == [] then [] else Insert(s[0], SortByCreated(s[1..]))
  }

  /** The sort puts the messages in ascending creation order, and it only rearranges them. */
  lemma {:induction false} SortByCreatedSorted(s: seq<Message>)
    ensures Sorted(SortByCreated(s))
    ensures multiset(SortByCreated(s)) == multiset(s)
  {
    if s != [] {
      assert s == [s[0]] + s[1..];
      SortByCreatedSorted(s[1..]);
      InsertSorted(s[0], SortByCreated(s[1..]));
    }
  }

  /** The messages of `s` created at time `t`, in order. */
  function CreatedAt(s: seq<Message>, t: int): seq<Message>
  {
    if s == [] then []
    else (if s[0].createdAt == t then [s[0]] else []) + CreatedAt(s[1..], t)
  }

  /** The messages created at `t` of a sequence with `a` in front. */
  lemma CreatedAtCons(a: Message, r: seq<Message>, t: int)
    ensures CreatedAt([a] + r, t) == (if a.createdAt == t then [a] else []) + CreatedAt(r, t)
  {
    assert ([a] + r)[1..] == r;
  }

  /** Inserting `x` puts it in front of the messages created at the same time as it. */
  lemma {:induction false} InsertStable(x: Message, s: seq<Message>, t: int)
    ensures CreatedAt(Insert(x, s), t) == (if x.createdAt == t then [x] else []) + CreatedAt(s, t)
    decreases |s|
  {
    if s == [] || x.createdAt <= s[0].createdAt {
      CreatedAtCons(x, s, t);
    } else {
      var r := Insert(x, s[1..]);
      assert Insert(x, s) == [s[0]] + r;
      CreatedAtCons(s[0], r, t);
      InsertStable(x, s[1..], t);
      assert s == [s[0]] + s[1..];
      CreatedAtCons(s[0], s[1..], t);
      var rest := CreatedAt(s[1..], t);
      if x.createdAt == t {
        assert s[0].createdAt != t;
        assert CreatedAt(s, t) == rest;
      } else if s[0].createdAt == t {
        assert CreatedAt(Insert(x, s), t) == [s[0]] + rest;
      } else {
        assert CreatedAt(Insert(x, s), t) == rest;
      }
    }
  }

  /** The sort is stable: for every creation time, those messages keep their relative order. */
  lemma {:induction false} SortStable(s: seq<Message>, t: int)
    ensures CreatedAt(SortByCreated(s), t) == CreatedAt(s, t)
  {
    if s != [] {
      SortStable(s[1..], t);
      InsertStable(s[0], SortByCreated(s[1..]), t);
    }
  }

  /** The children of the message `uuid`, in the order they are visited. */
  function ChildrenOf(payload: Payload, uuid: string): seq<Message>
  {
    SortByCreated(ChildMessages(payload.chatMessages, uuid))
  }

  /**
   * The children are sorted by creation time, and they are the messages of
   * the conversation whose parent link names `uuid`, each as often as the
   * conversation lists it.
   */
  lemma ChildrenOfSorted(payload: Payload, uuid: string)
    ensures var r := ChildrenOf(payload, uuid);
            && Sorted(r)
            && forall m :: multiset(r)[m] == if IsChildOf(m, uuid) then multiset(payload.chatMessages)[m] else 0
  {
    ChildMessagesFilter(payload.chatMessages, uuid);
    SortByCreatedSorted(ChildMessages(payload.chatMessages, uuid));
  }

  /** Every message of `s` is a message of the conversation. */
  predicate Listed(payload: Payload, s: seq<Message>)
  {
    forall x :: x in s ==> x in payload.chatMessages
  }

  /** Every child visited is a message of the conversation whose parent link names `uuid`. */
  lemma ChildrenListed(payload: Payload, uuid: string)
    ensures Listed(payload, ChildrenOf(payload, uuid))
    ensures forall c :: c in ChildrenOf(payload, uuid) ==> IsChildOf(c, uuid)
  {
    var r := ChildrenOf(payload, uuid);
    ChildrenOfSorted(payload, uuid);
    forall c | c in r
      ensures IsChildOf(c, uuid) && c in payload.chatMessages
    {
      assert c in multiset(r);
    }
  }

  /**
   * Selecting the children and selecting the messages created at `t` commute:
   * the children created at `t` are, in listed order, the children among the
   * messages created at `t`.
   */
  lemma {:induction false} FilterKeepsOrder(messages: seq<Message>, uuid: string, t: int)
    ensures CreatedAt(ChildMessages(messages, uuid), t) == ChildMessages(CreatedAt(messages, t), uuid)
    decreases |messages|
  {
    if messages != [] {
      var a := messages[0];
      var rest := messages[1..];
      assert messages == [a] + rest;
      FilterKeepsOrder(rest, uuid, t);
      var children := ChildMessages(rest, uuid);
      var timed := CreatedAt(rest, t);
      if IsChildOf(a, uuid) {
        CreatedAtCons(a, children, t);
      } else {
        assert ChildMessages(messages, uuid) == children;
      }
      if a.createdAt == t {
        ChildMessagesCons(a, timed, uuid);
      } else {
        assert CreatedAt(messages, t) == timed;
      }
    }
  }

  /**
   * Among the children created at the same time, the conversation's order is
   * kept: they are visited in the order `chat_messages` lists them.
   */
  lemma ChildrenStable(payload: Payload, uuid: string, t: int)
    ensures CreatedAt(ChildrenOf(payload, uuid), t) == CreatedAt(ChildMessages(payload.chatMessages, uuid), t)
    ensures CreatedAt(ChildrenOf(payload, uuid), t) == ChildMessages(CreatedAt(payload.chatMessages, t), uuid)
  {
    SortStable(ChildMessages(payload.chatMessages, uuid), t);
    FilterKeepsOrder(payload.chatMessages, uuid, t);
  }
}
