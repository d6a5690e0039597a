/** A processing node's coherence logic: its local valid bit per address, the
    address it awaits a COMPLETE for, and the state effects of its read and
    write accesses. Latencies and the instruction loop are not modelled. */
module Node {
  import opened Messages
  import opened Fabric
  import opened Directory

  /** The node's local state: `valid[a]` is 1 when the node holds address `a`,
      `awaiting` is the address whose COMPLETE the node waits for. */
  datatype Local = Local(valid: seq<int>, awaiting: Option<int>)

  /** The source indexes its bit list with the payload of an INVALIDATE and
      with the awaited address on a COMPLETE; outside the list it fails. */
  predicate Handleable(s: Local, kind: int, data: int)
  {
    (kind == Invalidate ==> 0 <= data < |s.valid|) &&
    (kind == Complete ==> s.awaiting.Some? && 0 <= s.awaiting.value < |s.valid|)
  }

  /** The effect of one incoming message on the local state. */
  function Handle(s: Local, kind: int, data: int): (r: Local)
    requires Handleable(s, kind, data)
    ensures |r.valid| == |s.valid|
    ensures kind == Invalidate ==>
      r.valid[data] == 0 && r.awaiting == s.awaiting &&
      forall a :: 0 <= a < |s.valid| && a != data ==> r.valid[a] == s.valid[a]
    ensures kind == Complete ==>
      r.valid[s.awaiting.value] == 1 && r.awaiting == None &&
      forall a :: 0 <= a < |s.valid| && a != s.awaiting.value ==> r.valid[a] == s.valid[a]
    ensures kind != Invalidate && kind != Complete ==> r == s
  {
    if kind == Invalidate then s.(valid := s.valid[data := 0])
    else if kind == Complete then Local(s.valid[s.awaiting.value := 1], None)
    else s
  }

  /** Handling `msgs` in order; None when the source would fail on one of them. */
  function Run(s: Local, msgs: seq<Message>): (r: Option<Local>)
    ensures r.Some? ==> |r.value.valid| == |s.valid|
    decreases |msgs|
  {
    if msgs == [] then Some(s)
    else if !Handleable(s, msgs[0].kind, msgs[0].data) then None
    else Run(Handle(s, msgs[0].kind, msgs[0].data), msgs[1..])
  }

  /** The read-miss loop on the messages at hand: handle them one at a time
      while the bit of `address` is clear. The result is the new state and the
      number of messages consumed; the wait stops at the first message after
      which the bit is set. */
  function Await(s: Local, msgs: seq<Message>, address: int): (r: Option<(Local, nat)>)
    requires 0 <= address < |s.valid|
    ensures r.Some? ==> r.value.1 <= |msgs| && |r.value.0.valid| == |s.valid|
    ensures r.Some? ==> r.value.0.valid[address] != 0 || r.value.1 == |msgs|
    ensures r.Some? ==> Run(s, msgs[..r.value.1]) == Some(r.value.0)
    ensures r.Some? ==> forall k :: 0 <= k < r.value.1 ==>
      Run(s, msgs[..k]).Some? && Run(s, msgs[..k]).value.valid[address] == 0
    decreases |msgs|
  {
    if s.valid[address] != 0 || msgs == [] then Some((s, 0))
    else if !Handleable(s, msgs[0].kind, msgs[0].data) then None
    else
      var h := Handle(s, msgs[0].kind, msgs[0].data);
      match Await(h, msgs[1..], address)
      case None => None
      case Some((t, n)) =>
        assert msgs[..n + 1][1..] == msgs[1..][..n];
        assert forall k :: 0 <= k < n + 1 ==>
          Run(s, msgs[..k]).Some? && Run(s, msgs[..k]).value.valid[address] == 0 by {
          forall k | 0 < k < n + 1
            ensures Run(s, msgs[..k]) == Run(h, msgs[1..][..k - 1])
          {
            assert msgs[..k][1..] == msgs[1..][..k - 1];
          }
        }
        Some((t, n + 1))
  }

  /** A bit that handling turns on belongs to the address the node awaited:
      a node never gains a line it did not ask for. */
  lemma {:induction false} RunGainsOnlyAwaited(s: Local, msgs: seq<Message>, a: int)
    requires Run(s, msgs).Some? && 0 <= a < |s.valid|
    requires Run(s, msgs).value.valid[a] == 1 && s.valid[a] != 1
    ensures s.awaiting == Some(a)
    decreases |msgs|
  {
    var t := Handle(s, msgs[0].kind, msgs[0].data);
    if t.valid[a] != 1 {
      RunGainsOnlyAwaited(t, msgs[1..], a);
    }
  }

  /** A node never has a COMPLETE pending for more than one address, and
      handling its messages leaves it awaiting nothing or what it awaited. */
  lemma {:induction false} RunKeepsAwaiting(s: Local, msgs: seq<Message>)
    requires Run(s, msgs).Some?
    ensures Run(s, msgs).value.awaiting == s.awaiting || Run(s, msgs).value.awaiting == None
    decreases |msgs|
  {
    if msgs != [] {
      var t := Handle(s, msgs[0].kind, msgs[0].data);
      RunKeepsAwaiting(t, msgs[1..]);
    }
  }

  /** Every valid bit is 0 or 1. */
  predicate Bits(valid: seq<int>)
  {
    forall a :: 0 <= a < |valid| ==> valid[a] == 0 || valid[a] == 1
  }

  /** Handling messages only ever writes 0 or 1, so a bit that is not 0 is 1
      and the read-miss wait ends exactly when the awaited bit is 1. */
  lemma {:induction false} RunKeepsBits(s: Local, msgs: seq<Message>)
    requires Bits(s.valid) && Run(s, msgs).Some?
    ensures Bits(Run(s, msgs).value.valid)
    decreases |msgs|
  {
    if msgs != [] {
      var t := Handle(s, msgs[0].kind, msgs[0].data);
      assert Bits(t.valid);
      RunKeepsBits(t, msgs[1..]);
    }
  }

  class Processor {
    const mailbox: Mailbox
    /** The node's valid bits; the source calls this list `directory`. */
    const valid: array<int>
    var writeAddress: Option<int>

    constructor (mailbox: Mailbox, valid: array<int>)
      ensures this.mailbox == mailbox && this.valid == valid && writeAddress == None
    {
      this.mailbox := mailbox;
      this.valid := valid;
      writeAddress := None;
    }

    function State(): Local
      reads this, valid
    {
      Local(valid[..], writeAddress)
    }

    /** INVALIDATE clears the bit of its address; COMPLETE sets the bit of the
        awaited address and clears the marker; other kinds are ignored. */
    method HandleMessage(msg: Message)
      requires Handleable(State(), msg.kind, msg.data)
      modifies this, valid
      ensures State() == Handle(old(State()), msg.kind, msg.data)
    {
      if msg.kind == Invalidate {
        valid[msg.data] := 0;
      } else if msg.kind == Complete {
        valid[writeAddress.value] := 1;
        writeAddress := None;
      }
    }

    method HandleMessages(msgs: seq<Message>)
      requires Run(State(), msgs).Some?
      modifies this, valid
      ensures State() == Run(old(State()), msgs).value
    {
      for n := 0 to |msgs|
        invariant Run(State(), msgs[n..]) == Run(old(State()), msgs)
      {
        assert msgs[n..][1..] == msgs[n + 1..];
        HandleMessage(msgs[n]);
      }
    }

    /** One resumption of the read-miss wait: handle mailbox messages one by
        one while the bit of `address` is clear. Returns whether it is set;
        when it is not, the inbox is exhausted and the node keeps waiting. */
    method AwaitFill(address: int) returns (filled: bool)
      requires 0 <= address < valid.Length
      requires Await(State(), mailbox.inbox, address).Some?
      modifies this, valid, mailbox
      ensures var r := Await(old(State()), old(mailbox.inbox), address).value;
        State() == r.0 && mailbox.inbox == old(mailbox.inbox)[r.1..]
      ensures filled <==> valid[address] != 0
      ensures !filled ==> mailbox.inbox == []
    {
      ghost var r := Await(State(), mailbox.inbox, address).value;
      ghost var consumed := 0;
      while valid[address] == 0
        invariant consumed <= r.1 && mailbox.inbox == old(mailbox.inbox)[consumed..]
        invariant Await(State(), mailbox.inbox, address) == Some((r.0, r.1 - consumed))
        decreases |mailbox.inbox|
      {
        var isEmpty := mailbox.Empty();
        if isEmpty {
          break;
        }
        var msg := mailbox.GetMessage();
        HandleMessage(msg);
        consumed := consumed + 1;
      }
      filled := valid[address] != 0;
    }

    /** Creates a message and sends it to the directory through the node's mailbox. */
    method Request(kind: int, data: int) returns (msg: Message)
      requires mailbox.postOffice.Valid() && mailbox.id < |mailbox.postOffice.inputMessages|
      modifies mailbox.postOffice
      ensures fresh(msg) && msg.kind == kind && msg.data == data
      ensures mailbox.postOffice.Valid()
      ensures old(mailbox.postOffice.Settled()) ==> mailbox.postOffice.Settled()
      ensures mailbox.postOffice.queue == old(mailbox.postOffice.queue) + [Entry(mailbox.id, msg)]
      ensures mailbox.postOffice.inputMessages ==
        old(mailbox.postOffice.inputMessages)[mailbox.id := old(mailbox.postOffice.inputMessages[mailbox.id]) + [msg]]
      ensures mailbox.postOffice.mailboxes == old(mailbox.postOffice.mailboxes)
      ensures mailbox.postOffice.taken == old(mailbox.postOffice.taken)
    {
      ghost var before := MessagesOf(mailbox.postOffice.queue);
      msg := new Message(kind, data);
      assert msg !in before;
      mailbox.SendMessage(msg);
    }

    /** A read access. It first handles everything in the mailbox; on a hit
        nothing else changes; on a miss it sends FETCH(address) and awaits
        `address`. */
    method ReadAccess(address: int) returns (hit: bool)
      requires 0 <= address < valid.Length
      requires Run(State(), mailbox.inbox).Some?
      requires mailbox.postOffice.Valid() && mailbox.id < |mailbox.postOffice.inputMessages|
      modifies this, valid, mailbox, mailbox.postOffice
      ensures mailbox.postOffice.Valid()
      ensures old(mailbox.postOffice.Settled()) ==> mailbox.postOffice.Settled()
      ensures mailbox.inbox == []
      ensures var d := Run(old(State()), old(mailbox.inbox)).value;
        hit == (d.valid[address] == 1) &&
        valid[..] == d.valid &&
        writeAddress == (if hit then d.awaiting else Some(address))
      ensures hit ==> mailbox.postOffice.queue == old(mailbox.postOffice.queue) &&
                      mailbox.postOffice.inputMessages == old(mailbox.postOffice.inputMessages)
      ensures !hit ==>
        var q0 := old(mailbox.postOffice.queue);
        |mailbox.postOffice.queue| == |q0| + 1 &&
        mailbox.postOffice.queue[..|q0|] == q0 &&
        var e := mailbox.postOffice.queue[|q0|];
        e.sender == mailbox.id && fresh(e.msg) && e.msg.kind == Fetch && e.msg.data == address &&
        mailbox.postOffice.inputMessages ==
          old(mailbox.postOffice.inputMessages)[mailbox.id := old(mailbox.postOffice.inputMessages[mailbox.id]) + [e.msg]]
      ensures mailbox.postOffice.mailboxes == old(mailbox.postOffice.mailboxes)
      ensures mailbox.postOffice.taken == old(mailbox.postOffice.taken)
    {
      var msgs := mailbox.GetMessages();
      HandleMessages(msgs);
      if valid[address] == 1 {
        hit := true;
      } else {
        hit := false;
        var fetch := Request(Fetch, address);
        writeAddress := Some(address);
      }
    }

    /** The two requests of a write: INVALIDATE(address), then COMPLETE. */
    method SendWrite(address: int) returns (inv: Message, commit: Message)
      requires mailbox.postOffice.Valid() && mailbox.id < |mailbox.postOffice.inputMessages|
      modifies mailbox.postOffice
      ensures fresh(inv) && inv.kind == Invalidate && inv.data == address
      ensures fresh(commit) && commit.kind == Complete && commit.data == WriteData
      ensures mailbox.postOffice.Valid()
      ensures old(mailbox.postOffice.Settled()) ==> mailbox.postOffice.Settled()
      ensures mailbox.postOffice.queue == old(mailbox.postOffice.queue) + [Entry(mailbox.id, inv), Entry(mailbox.id, commit)]
      ensures mailbox.postOffice.inputMessages ==
        old(mailbox.postOffice.inputMessages)[mailbox.id := old(mailbox.postOffice.inputMessages[mailbox.id]) + [inv, commit]]
      ensures mailbox.postOffice.mailboxes == old(mailbox.postOffice.mailboxes)
      ensures mailbox.postOffice.taken == old(mailbox.postOffice.taken)
    {
      inv := Request(Invalidate, address);
      commit := Request(Complete, WriteData);
      assert old(mailbox.postOffice.inputMessages[mailbox.id]) + [inv] + [commit]
          == old(mailbox.postOffice.inputMessages[mailbox.id]) + [inv, commit];
    }

    /** A write access. It sets aside the pending mailbox messages, sends
        INVALIDATE(address) then COMPLETE to the directory, handles the
        set-aside messages and marks `address` valid. */
    method WriteAccess(address: int)
      requires 0 <= address < valid.Length
      requires Run(State(), mailbox.inbox).Some?
      requires mailbox.postOffice.Valid() && mailbox.id < |mailbox.postOffice.inputMessages|
      modifies this, valid, mailbox, mailbox.postOffice
      ensures mailbox.postOffice.Valid()
      ensures old(mailbox.postOffice.Settled()) ==> mailbox.postOffice.Settled()
      ensures mailbox.inbox == []
      ensures var d := Run(old(State()), old(mailbox.inbox)).value;
        valid[..] == d.valid[address := 1] && writeAddress == d.awaiting
      ensures valid[address] == 1
      ensures
        var q0 := old(mailbox.postOffice.queue);
        |mailbox.postOffice.queue| == |q0| + 2 &&
        mailbox.postOffice.queue[..|q0|] == q0 &&
        var inv, commit := mailbox.postOffice.queue[|q0|], mailbox.postOffice.queue[|q0| + 1];
        inv.sender == mailbox.id && fresh(inv.msg) && inv.msg.kind == Invalidate && inv.msg.data == address &&
        commit.sender == mailbox.id && fresh(commit.msg) && commit.msg.kind == Complete && commit.msg.data == WriteData &&
        mailbox.postOffice.inputMessages ==
          old(mailbox.postOffice.inputMessages)[mailbox.id := old(mailbox.postOffice.inputMessages[mailbox.id]) + [inv.msg, commit.msg]]
      ensures mailbox.postOffice.mailboxes == old(mailbox.postOffice.mailboxes)
      ensures mailbox.postOffice.taken == old(mailbox.postOffice.taken)
    {
      var msgs := mailbox.GetMessages();
      var inv, commit := SendWrite(address);
      HandleMessages(msgs);
      valid[address] := 1;
    }
  }

  /** A processing node: a mailbox registered under `id` with the directory
      node's post office and a processor whose valid bits are all clear. */
  class ProcessingNode {
    const id: nat
    const mailbox: Mailbox
    const processor: Processor

    constructor (id: nat, directoryNode: DirectoryNode, cacheSize: nat)
      requires directoryNode.postOffice.Valid() && id < |directoryNode.postOffice.mailboxes|
      modifies directoryNode.postOffice
      ensures this.id == id && fresh(mailbox) && fresh(processor) && fresh(processor.valid)
      ensures mailbox.id == id && mailbox.postOffice == directoryNode.postOffice && mailbox.inbox == []
      ensures directoryNode.postOffice.mailboxes == old(directoryNode.postOffice.mailboxes)[id := mailbox]
      ensures directoryNode.postOffice.Unchanged(old(directoryNode.postOffice.queue),
        old(directoryNode.postOffice.inputMessages), old(directoryNode.postOffice.taken))
      ensures directoryNode.postOffice.Valid()
      ensures processor.mailbox == mailbox && processor.State() == Local(Repeat(0, cacheSize), None)
    {
      this.id := id;
      var box := new Mailbox(id, directoryNode.postOffice);
      var valid := new int[cacheSize](_ => 0);
      mailbox := box;
      processor := new Processor(box, valid);
    }
  }
}
