/** The message fabric: per-node mailboxes for directory-to-node traffic and
    the post office, which holds node-to-directory traffic in two views — a
    list per sender and one chronological queue of (sender, message) pairs. */
module Fabric {
  import opened Messages

  /** One entry of the post office's chronological queue. */
  datatype Entry = Entry(sender: nat, msg: Message)

  function MessagesOf(q: seq<Entry>): set<Message>
  {
    set e | e in q :: e.msg
  }

  /** No message object occurs twice in the queue. */
  ghost predicate Distinct(q: seq<Entry>)
  {
    forall i, j :: 0 <= i < j < |q| ==> q[i].msg != q[j].msg
  }

  /** The messages that `id` sent, in queue order, leaving out those already
      pulled by a directed `GetMessage` (the set `taken`). */
  ghost function Untaken(q: seq<Entry>, id: nat, taken: set<Message>): seq<Message>
  {
    if q == [] then []
    else (if q[0].sender == id && q[0].msg !in taken then [q[0].msg] else []) + Untaken(q[1..], id, taken)
  }

  /** The queue after dropping its leading handled entries. */
  function PruneHandled(q: seq<Entry>): (r: seq<Entry>)
    reads MessagesOf(q)
    ensures |r| <= |q|
    ensures forall i :: 0 <= i < |q| - |r| ==> q[i].msg.handled
    ensures r != [] ==> !r[0].msg.handled
    decreases |q|
  {
    if q != [] && q[0].msg.handled then
      assert MessagesOf(q[1..]) <= MessagesOf(q) by {
        forall e | e in q[1..] ensures e in q { }
      }
      PruneHandled(q[1..])
    else q
  }

  /** What is left is the queue's own tail, in the same order. */
  lemma {:induction false} PruneHandledSuffix(q: seq<Entry>)
    ensures PruneHandled(q) == q[|q| - |PruneHandled(q)|..]
    decreases |q|
  {
    if q != [] && q[0].msg.handled {
      PruneHandledSuffix(q[1..]);
      assert q[1..][|q[1..]| - |PruneHandled(q[1..])|..] == q[|q| - |PruneHandled(q)|..];
    }
  }

  /** Pruning stops exactly at the first unhandled entry. */
  lemma {:induction false} PruneHandledAt(q: seq<Entry>, k: nat)
    requires k <= |q|
    requires forall i :: 0 <= i < k ==> q[i].msg.handled
    requires k == |q| || !q[k].msg.handled
    ensures PruneHandled(q) == q[k..]
    decreases k
  {
    if k > 0 {
      PruneHandledAt(q[1..], k - 1);
      assert q[1..][k - 1..] == q[k..];
    }
  }

  /** Pruning twice prunes nothing more. */
  lemma PruneHandledIdempotent(q: seq<Entry>)
    ensures PruneHandled(PruneHandled(q)) == PruneHandled(q)
  {
  }

  lemma {:induction false} UntakenAppend(q: seq<Entry>, e: Entry, id: nat, taken: set<Message>)
    ensures Untaken(q + [e], id, taken)
         == Untaken(q, id, taken) + (if e.sender == id && e.msg !in taken then [e.msg] else [])
  {
    if q == [] {
      assert [e][1..] == [];
    } else {
      assert (q + [e])[1..] == q[1..] + [e];
      UntakenAppend(q[1..], e, id, taken);
    }
  }

  /** Two sets of taken messages that agree on `id`'s entries select the same messages. */
  lemma {:induction false} UntakenAgree(q: seq<Entry>, id: nat, t1: set<Message>, t2: set<Message>)
    requires forall i :: 0 <= i < |q| && q[i].sender == id ==> (q[i].msg in t1 <==> q[i].msg in t2)
    ensures Untaken(q, id, t1) == Untaken(q, id, t2)
  {
    if q != [] {
      assert forall i :: 0 <= i < |q[1..]| ==> q[1..][i] == q[i + 1];
      UntakenAgree(q[1..], id, t1, t2);
    }
  }

  /** Every selected message belongs to an entry of `id` that is not taken. */
  lemma {:induction false} UntakenFrom(q: seq<Entry>, id: nat, taken: set<Message>, k: nat)
    requires k < |Untaken(q, id, taken)|
    ensures exists i :: 0 <= i < |q| && q[i] == Entry(id, Untaken(q, id, taken)[k])
    ensures Untaken(q, id, taken)[k] !in taken
  {
    var u := Untaken(q, id, taken);
    if q[0].sender == id && q[0].msg !in taken {
      if k == 0 {
        assert q[0] == Entry(id, u[0]);
      } else {
        UntakenFrom(q[1..], id, taken, k - 1);
        var i :| 0 <= i < |q[1..]| && q[1..][i] == Entry(id, Untaken(q[1..], id, taken)[k - 1]);
        assert q[i + 1] == Entry(id, u[k]);
      }
    } else {
      UntakenFrom(q[1..], id, taken, k);
      var i :| 0 <= i < |q[1..]| && q[1..][i] == Entry(id, Untaken(q[1..], id, taken)[k]);
      assert q[i + 1] == Entry(id, u[k]);
    }
  }

  /** Taking `id`'s oldest untaken message removes exactly the front of `id`'s
      selection and leaves every other sender's selection alone. */
  lemma {:induction false} UntakenTakeFirst(q: seq<Entry>, id: nat, taken: set<Message>)
    requires Distinct(q) && Untaken(q, id, taken) != []
    ensures Untaken(q, id, taken + {Untaken(q, id, taken)[0]}) == Untaken(q, id, taken)[1..]
    ensures forall k :: k != id ==>
      Untaken(q, k, taken + {Untaken(q, id, taken)[0]}) == Untaken(q, k, taken)
  {
    var m := Untaken(q, id, taken)[0];
    var t := taken + {m};
    if q[0].sender == id && q[0].msg !in taken {
      assert m == q[0].msg;
      forall k ensures Untaken(q[1..], k, t) == Untaken(q[1..], k, taken) {
        UntakenAgree(q[1..], k, t, taken);
      }
    } else {
      UntakenTakeFirst(q[1..], id, taken);
      UntakenFrom(q[1..], id, taken, 0);
      var i :| 0 <= i < |q[1..]| && q[1..][i] == Entry(id, m);
      assert q[0].msg != m by { assert q[i + 1].msg == m; }
    }
  }

  /** Dropping a taken front entry and forgetting it was taken selects the same messages. */
  lemma UntakenDropTaken(q: seq<Entry>, id: nat, taken: set<Message>)
    requires Distinct(q) && q != [] && q[0].msg in taken
    ensures Untaken(q[1..], id, taken - {q[0].msg}) == Untaken(q, id, taken)
  {
    UntakenAgree(q[1..], id, taken - {q[0].msg}, taken);
  }

  /** The per-sender lists `inputs` agree with the queue `q`. */
  ghost predicate Agree(q: seq<Entry>, inputs: seq<seq<Message>>, taken: set<Message>)
  {
    (forall i :: 0 <= i < |q| ==> q[i].sender < |inputs|) &&
    Distinct(q) &&
    taken <= MessagesOf(q) &&
    (forall id :: 0 <= id < |inputs| ==> inputs[id] == Untaken(q, id, taken))
  }

  /** A handled queued message has been pulled already. */
  ghost predicate HandledTaken(q: seq<Entry>, taken: set<Message>)
    reads MessagesOf(q)
  {
    forall i :: 0 <= i < |q| && q[i].msg.handled ==> q[i].msg in taken
  }

  /** A pulled queued message has been handled already. */
  ghost predicate TakenHandled(q: seq<Entry>, taken: set<Message>)
    reads MessagesOf(q)
  {
    forall i :: 0 <= i < |q| && q[i].msg in taken ==> q[i].msg.handled
  }

  /** Pruning one handled front entry keeps the two views in agreement. */
  lemma PruneFrontAgrees(q: seq<Entry>, inputs: seq<seq<Message>>, taken: set<Message>)
    requires Agree(q, inputs, taken) && HandledTaken(q, taken)
    requires q != [] && q[0].msg.handled
    ensures Agree(q[1..], inputs, taken - {q[0].msg})
    ensures HandledTaken(q[1..], taken - {q[0].msg})
    ensures TakenHandled(q, taken) ==> TakenHandled(q[1..], taken - {q[0].msg})
    ensures taken - {q[0].msg} == taken * MessagesOf(q[1..])
  {
    var m := q[0].msg;
    assert MessagesOf(q) == MessagesOf(q[1..]) + {m} by {
      assert q == [q[0]] + q[1..];
    }
    assert m !in MessagesOf(q[1..]);
    forall id | 0 <= id < |inputs|
      ensures inputs[id] == Untaken(q[1..], id, taken - {m})
    {
      UntakenDropTaken(q, id, taken);
    }
  }

  /** The loop state of `PostOffice.Empty`: the first `pruned` entries of the
      original queue `q0` were handled and are gone, and the views still agree. */
  ghost predicate Pruning(q0: seq<Entry>, taken0: set<Message>, settled0: bool, pruned: nat,
                          q: seq<Entry>, inputs: seq<seq<Message>>, taken: set<Message>)
    reads MessagesOf(q0)
  {
    pruned <= |q0| && q == q0[pruned..] &&
    (forall i :: 0 <= i < pruned ==> q0[i].msg.handled) &&
    Agree(q, inputs, taken) && HandledTaken(q, taken) &&
    (settled0 ==> TakenHandled(q, taken)) &&
    taken <= taken0
  }

  lemma PruneStep(q0: seq<Entry>, taken0: set<Message>, settled0: bool, pruned: nat,
                  q: seq<Entry>, inputs: seq<seq<Message>>, taken: set<Message>)
    requires Pruning(q0, taken0, settled0, pruned, q, inputs, taken)
    requires q != [] && q[0].msg.handled
    ensures Pruning(q0, taken0, settled0, pruned + 1, q[1..], inputs, taken - {q[0].msg})
  {
    PruneFrontAgrees(q, inputs, taken);
    assert q0[pruned] == q[0];
    assert q0[pruned + 1..] == q[1..];
  }

  /** A node's inbox. The source uses a mailbox for directory-to-node traffic
      only; `SendMessage` forwards the node's own requests to the post office. */
  class Mailbox {
    const id: nat
    const postOffice: PostOffice
    var inbox: seq<Message>

    /** Creates the mailbox and registers it with the post office under `id`. */
    constructor (id: nat, postOffice: PostOffice)
      requires postOffice.Valid() && id < |postOffice.mailboxes|
      modifies postOffice
      ensures this.id == id && this.postOffice == postOffice && inbox == []
      ensures postOffice.mailboxes == old(postOffice.mailboxes)[id := this]
      ensures postOffice.Unchanged(old(postOffice.queue), old(postOffice.inputMessages), old(postOffice.taken))
      ensures postOffice.Valid()
    {
      this.id := id;
      this.postOffice := postOffice;
      inbox := [];
      new;
      postOffice.RegisterMailbox(this);
    }

    method Empty() returns (isEmpty: bool)
      ensures isEmpty <==> inbox == []
    {
      isEmpty := |inbox| == 0;
    }

    /** Pops the oldest message; the source fails on an empty inbox. */
    method GetMessage() returns (msg: Message)
      requires inbox != []
      modifies this
      ensures msg == old(inbox[0]) && inbox == old(inbox[1..])
    {
      msg := inbox[0];
      inbox := inbox[1..];
    }

    /** Takes every pending message, oldest first, and leaves the inbox empty. */
    method GetMessages() returns (msgs: seq<Message>)
      modifies this
      ensures msgs == old(inbox) && inbox == []
    {
      msgs := inbox;
      inbox := [];
    }

    /** Hands a request of this node to the post office. */
    method SendMessage(msg: Message)
      requires postOffice.Valid() && id < |postOffice.inputMessages|
      requires msg !in MessagesOf(postOffice.queue) && !msg.handled
      modifies postOffice
      ensures postOffice.Valid()
      ensures old(postOffice.Settled()) ==> postOffice.Settled()
      ensures postOffice.queue == old(postOffice.queue) + [Entry(id, msg)]
      ensures postOffice.inputMessages == old(postOffice.inputMessages)[id := old(postOffice.inputMessages[id]) + [msg]]
      ensures postOffice.mailboxes == old(postOffice.mailboxes) && postOffice.taken == old(postOffice.taken)
    {
      postOffice.LeaveMessage(id, msg);
    }

    method LeaveMessage(msg: Message)
      modifies this
      ensures inbox == old(inbox) + [msg]
    {
      inbox := inbox + [msg];
    }
  }

  class PostOffice {
    var mailboxes: seq<Mailbox?>
    var inputMessages: seq<seq<Message>>
    var queue: seq<Entry>
    /** Messages pulled by a directed `GetMessage` whose queue entry is still queued. */
    ghost var taken: set<Message>

    /** The two views agree: each sender's list is, in order, that sender's
        queued messages not yet pulled by a directed `GetMessage`. */
    ghost predicate Valid()
      reads this, MessagesOf(queue)
    {
      |mailboxes| == |inputMessages| &&
      MailboxesIndexed() &&
      Agree(queue, inputMessages, taken) &&
      HandledTaken(queue, taken)
    }

    /** Between two directory steps every taken message is also handled. */
    ghost predicate Settled()
      reads this, MessagesOf(queue)
    {
      TakenHandled(queue, taken)
    }

    ghost predicate Unchanged(q: seq<Entry>, inputs: seq<seq<Message>>, t: set<Message>)
      reads this
    {
      queue == q && inputMessages == inputs && taken == t
    }

    ghost predicate MailboxesIndexed()
      reads this
    {
      forall i :: 0 <= i < |mailboxes| && mailboxes[i] != null ==> mailboxes[i].id == i
    }

    predicate Registered(id: nat)
      reads this
    {
      id < |mailboxes| && mailboxes[id] != null
    }

    function MailboxSet(): set<Mailbox?>
      reads this
    {
      set i | 0 <= i < |mailboxes| && mailboxes[i] != null :: mailboxes[i]
    }

    constructor (pnodes: nat)
      ensures Valid() && Settled()
      ensures |mailboxes| == pnodes && forall i :: 0 <= i < pnodes ==> mailboxes[i] == null
      ensures |inputMessages| == pnodes && forall i :: 0 <= i < pnodes ==> inputMessages[i] == []
      ensures queue == [] && taken == {}
    {
      mailboxes := seq(pnodes, _ => null);
      inputMessages := seq(pnodes, _ => []);
      queue := [];
      taken := {};
    }

    method RegisterMailbox(mailbox: Mailbox)
      requires Valid() && mailbox.id < |mailboxes|
      modifies this
      ensures mailboxes == old(mailboxes)[mailbox.id := mailbox]
      ensures Unchanged(old(queue), old(inputMessages), old(taken))
      ensures Valid()
    {
      mailboxes := mailboxes[mailbox.id := mailbox];
    }

    /** Files a message from node `id`: appended to its list and to the queue. */
    method LeaveMessage(id: nat, msg: Message)
      requires Valid() && id < |inputMessages|
      requires msg !in MessagesOf(queue) && !msg.handled
      modifies this
      ensures Valid()
      ensures old(Settled()) ==> Settled()
      ensures queue == old(queue) + [Entry(id, msg)]
      ensures inputMessages == old(inputMessages)[id := old(inputMessages[id]) + [msg]]
      ensures mailboxes == old(mailboxes) && taken == old(taken)
    {
      inputMessages := inputMessages[id := inputMessages[id] + [msg]];
      queue := queue + [Entry(id, msg)];
      forall k | 0 <= k < |inputMessages|
        ensures inputMessages[k] == Untaken(queue, k, taken)
      {
        UntakenAppend(old(queue), Entry(id, msg), k, taken);
      }
    }

    method Empty() returns (isEmpty: bool)
      requires Valid()
      modifies this
      ensures Valid()
      ensures old(Settled()) ==> Settled()
      ensures queue == PruneHandled(old(queue))
      ensures isEmpty <==> queue == []
      ensures taken <= old(taken)
      ensures inputMessages == old(inputMessages) && mailboxes == old(mailboxes)
    {
      ghost var pruned := 0;
      while queue != [] && queue[0].msg.handled
        invariant Pruning(old(queue), old(taken), old(Settled()), pruned, queue, inputMessages, taken)
        invariant inputMessages == old(inputMessages) && mailboxes == old(mailboxes)
        decreases |queue|
      {
        PruneStep(old(queue), old(taken), old(Settled()), pruned, queue, inputMessages, taken);
        queue, taken := queue[1..], taken - {queue[0].msg};
        pruned := pruned + 1;
      }
      PruneHandledAt(old(queue), pruned);
      isEmpty := queue == [];
    }

    /** Pops the oldest queued pair and the front of that sender's list. */
    method GetFrontMessage() returns (sender: nat, msg: Message)
      requires Valid() && queue != [] && queue[0].msg !in taken
      modifies this
      ensures Valid()
      ensures old(Settled()) ==> Settled()
      ensures sender == old(queue[0].sender) && msg == old(queue[0].msg)
      ensures sender < |old(inputMessages)| && old(inputMessages[sender]) != []
      ensures msg == old(inputMessages[sender][0])
      ensures queue == old(queue[1..])
      ensures inputMessages == old(inputMessages)[sender := old(inputMessages[sender][1..])]
      ensures mailboxes == old(mailboxes) && taken == old(taken)
      ensures !msg.handled && msg !in MessagesOf(queue)
      ensures old(Settled()) ==> TakenHandled(queue, taken - {msg})
    {
      sender, msg := queue[0].sender, queue[0].msg;
      assert inputMessages[sender] == [msg] + Untaken(queue[1..], sender, taken);
      queue := queue[1..];
      inputMessages := inputMessages[sender := inputMessages[sender][1..]];
      assert msg !in MessagesOf(queue);
    }

    /** Pops the oldest message of node `id` only; its queue entry stays
        behind until it is handled and pruned. */
    method GetMessage(id: nat) returns (sender: nat, msg: Message)
      requires Valid() && id < |inputMessages| && inputMessages[id] != []
      modifies this
      ensures Valid()
      ensures sender == id && msg == old(inputMessages[id][0])
      ensures Entry(id, msg) in queue && msg !in old(taken)
      ensures queue == old(queue) && taken == old(taken) + {msg}
      ensures inputMessages == old(inputMessages)[id := old(inputMessages[id][1..])]
      ensures mailboxes == old(mailboxes)
      ensures !msg.handled
      ensures old(Settled()) ==> TakenHandled(queue, taken - {msg})
    {
      sender, msg := id, inputMessages[id][0];
      UntakenTakeFirst(queue, id, taken);
      UntakenFrom(queue, id, taken, 0);
      inputMessages := inputMessages[id := inputMessages[id][1..]];
      taken := taken + {msg};
    }

    /** Sets the flag that lets `Empty` prune a serviced message. `msg` is a
        message the directory pulled: taken if it is still queued, and the
        only taken one not yet handled. */
    method MarkHandled(msg: Message)
      requires Valid() && !msg.handled
      requires msg in MessagesOf(queue) ==> msg in taken
      requires TakenHandled(queue, taken - {msg})
      modifies msg
      ensures Valid() && Settled() && msg.handled
    {
      label pulled:
      msg.handled := true;
      assert HandledTaken(queue, taken) by {
        forall i | 0 <= i < |queue| && queue[i].msg.handled ensures queue[i].msg in taken {
          if queue[i].msg != msg {
            assert old@pulled(queue[i].msg.handled);
          }
        }
      }
      assert TakenHandled(queue, taken) by {
        forall i | 0 <= i < |queue| && queue[i].msg in taken ensures queue[i].msg.handled {
          if queue[i].msg != msg {
            assert old@pulled(queue[i].msg.handled);
          }
        }
      }
    }

    /** Delivers `msg` to the mailbox of every listed recipient, once per listing. */
    method SendMessages(recipients: seq<nat>, msg: Message)
      requires MailboxesIndexed()
      requires forall r :: r in recipients ==> Registered(r)
      modifies MailboxSet()
      ensures forall k: nat :: Registered(k) ==>
        mailboxes[k].inbox == old(mailboxes[k].inbox) + Repeat(msg, multiset(recipients)[k])
    {
      for n := 0 to |recipients|
        invariant forall k: nat :: Registered(k) ==>
          mailboxes[k].inbox == old(mailboxes[k].inbox) + Repeat(msg, multiset(recipients[..n])[k])
      {
        var r := recipients[n];
        assert r in recipients && Registered(r);
        assert recipients[..n + 1] == recipients[..n] + [r];
        mailboxes[r].LeaveMessage(msg);
        assert forall k: nat :: Registered(k) && k != r ==> mailboxes[k] != mailboxes[r];
      }
      assert recipients[..|recipients|] == recipients;
    }

    method SendMessage(recipient: nat, msg: Message)
      requires MailboxesIndexed() && Registered(recipient)
      modifies mailboxes[recipient]
      ensures mailboxes[recipient].inbox == old(mailboxes[recipient].inbox) + [msg]
    {
      mailboxes[recipient].LeaveMessage(msg);
    }
  }
}
