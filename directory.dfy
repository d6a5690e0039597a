/** The directory: its sharer table (which nodes hold each address), the
    pending-write marker and the step that pulls one request from the post
    office and services it. Cache latencies are not modelled. */
module Directory {
  import opened Messages
  import opened Fabric

  /** `s` without its first occurrence of `x`, like a list's `remove` that
      ignores a missing element. */
  function RemoveFirst(s: seq<nat>, x: nat): (r: seq<nat>)
    ensures x !in s ==> r == s
    ensures |r| == if x in s then |s| - 1 else |s|
    ensures forall y :: y in r ==> y in s
  {
    if s == [] then []
    else if s[0] == x then s[1..]
    else
      assert x in s ==> x in s[1..];
      [s[0]] + RemoveFirst(s[1..], x)
  }

  /** What is removed is the first occurrence; the rest keeps its order. */
  lemma {:induction false} RemoveFirstAt(s: seq<nat>, x: nat, i: nat)
    requires i < |s| && s[i] == x && x !in s[..i]
    ensures RemoveFirst(s, x) == s[..i] + s[i + 1..]
  {
    if i > 0 {
      assert s[0] != x by { assert s[..i][0] == s[0]; }
      assert s[1..][..i - 1] == s[1..i];
      RemoveFirstAt(s[1..], x, i - 1);
      assert s[..i] == [s[0]] + s[1..i];
      assert s[1..][i..] == s[i + 1..];
    }
  }

  /** Removing drops exactly one occurrence of `x` when there is one. */
  lemma {:induction false} RemoveFirstCount(s: seq<nat>, x: nat)
    ensures multiset(RemoveFirst(s, x)) == multiset(s) - multiset{x}
  {
    if s != [] {
      assert s == [s[0]] + s[1..];
      if s[0] != x {
        RemoveFirstCount(s[1..], x);
      }
    }
  }

  /** The directory's state: `sharers[a]` lists, in arrival order and with
      repetitions, the node whose INVALIDATE of `a` was serviced last (if
      any) followed by the nodes that read `a` since; the marker records the
      address and the node of an INVALIDATE whose COMPLETE is still due. */
  datatype DirState = DirState(sharers: seq<seq<nat>>, writeAddress: Option<int>, writeId: Option<nat>)

  /** INVALIDATE and FETCH index the sharer table with their payload. */
  predicate Addressable(size: nat, kind: int, data: int)
  {
    (kind == Invalidate || kind == Fetch) ==> 0 <= data < size
  }

  /** The state change of servicing a request `kind(data)` from `sender`. */
  function Dispatch(s: DirState, sender: nat, kind: int, data: int): (r: DirState)
    requires Addressable(|s.sharers|, kind, data)
    ensures |r.sharers| == |s.sharers|
  {
    if kind == Invalidate then DirState(s.sharers[data := [sender]], Some(data), Some(sender))
    else if kind == Complete then DirState(s.sharers, None, None)
    else if kind == Fetch then s.(sharers := s.sharers[data := s.sharers[data] + [sender]])
    else s
  }

  /** The nodes a serviced request delivers a message to, once per listing:
      an INVALIDATE goes to the other sharers of its address, the grant of a
      FETCH to its sender. */
  function Recipients(s: DirState, sender: nat, kind: int, data: int): seq<nat>
    requires Addressable(|s.sharers|, kind, data)
  {
    if kind == Invalidate then RemoveFirst(s.sharers[data], sender)
    else if kind == Fetch then [sender]
    else []
  }

  /** Address and node of the marker are set and cleared together; only a
      COMPLETE clears the marker and only an INVALIDATE or a COMPLETE moves it. */
  lemma DispatchMarker(s: DirState, sender: nat, kind: int, data: int)
    requires Addressable(|s.sharers|, kind, data)
    ensures var r := Dispatch(s, sender, kind, data);
      (s.writeAddress.Some? <==> s.writeId.Some?) ==> (r.writeAddress.Some? <==> r.writeId.Some?)
    ensures var r := Dispatch(s, sender, kind, data);
      s.writeAddress.Some? && r.writeAddress.None? ==> kind == Complete
    ensures var r := Dispatch(s, sender, kind, data);
      r.writeAddress != s.writeAddress || r.writeId != s.writeId ==> kind == Invalidate || kind == Complete
  {
  }

  /** A request as the directory sees it: its sender and its message. */
  datatype Request = Request(sender: nat, kind: int, data: int)

  predicate AllAddressable(size: nat, reqs: seq<Request>)
  {
    forall j :: 0 <= j < |reqs| ==> Addressable(size, reqs[j].kind, reqs[j].data)
  }

  /** Servicing `reqs` in order. */
  function Replay(s: DirState, reqs: seq<Request>): (r: DirState)
    requires AllAddressable(|s.sharers|, reqs)
    ensures |r.sharers| == |s.sharers|
    decreases |reqs|
  {
    if reqs == [] then s
    else Replay(Dispatch(s, reqs[0].sender, reqs[0].kind, reqs[0].data), reqs[1..])
  }

  /** Every node listed as a sharer was listed before or sent one of the
      requests: the table only ever names nodes that asked. */
  lemma {:induction false} ReplaySharers(s: DirState, reqs: seq<Request>, a: nat, n: nat)
    requires AllAddressable(|s.sharers|, reqs) && a < |s.sharers|
    requires n in Replay(s, reqs).sharers[a]
    ensures n in s.sharers[a] || exists j :: 0 <= j < |reqs| && reqs[j].sender == n
    decreases |reqs|
  {
    if reqs != [] {
      var t := Dispatch(s, reqs[0].sender, reqs[0].kind, reqs[0].data);
      ReplaySharers(t, reqs[1..], a, n);
      if n !in t.sharers[a] {
        var j :| 0 <= j < |reqs[1..]| && reqs[1..][j].sender == n;
        assert reqs[j + 1].sender == n;
      } else if n !in s.sharers[a] {
        assert reqs[0].sender == n;
      }
    }
  }

  /** Requests that leave the entry of address `a` alone. */
  predicate Untouched(a: int, reqs: seq<Request>)
  {
    forall j :: 0 <= j < |reqs| && (reqs[j].kind == Invalidate || reqs[j].kind == Fetch) ==> reqs[j].data != a
  }

  /** After node `n`'s INVALIDATE of `a`, `n` is the only sharer of `a` until
      a later INVALIDATE or FETCH of `a` is serviced. */
  lemma {:induction false} InvalidateExclusive(s: DirState, n: nat, a: nat, reqs: seq<Request>)
    requires a < |s.sharers| && AllAddressable(|s.sharers|, reqs) && Untouched(a, reqs)
    ensures Replay(s, [Request(n, Invalidate, a)] + reqs).sharers[a] == [n]
  {
    var t := Dispatch(s, n, Invalidate, a);
    assert ([Request(n, Invalidate, a)] + reqs)[1..] == reqs;
    UntouchedKeeps(t, a, reqs);
  }

  lemma {:induction false} UntouchedKeeps(s: DirState, a: nat, reqs: seq<Request>)
    requires a < |s.sharers| && AllAddressable(|s.sharers|, reqs) && Untouched(a, reqs)
    ensures Replay(s, reqs).sharers[a] == s.sharers[a]
    decreases |reqs|
  {
    if reqs != [] {
      var t := Dispatch(s, reqs[0].sender, reqs[0].kind, reqs[0].data);
      assert t.sharers[a] == s.sharers[a];
      UntouchedKeeps(t, a, reqs[1..]);
    }
  }

  /** `after` is `before` with `n` messages appended: the forwarded
      INVALIDATE `msg` itself, or otherwise a grant COMPLETE. */
  predicate Delivered(before: seq<Message>, after: seq<Message>, n: nat, msg: Message)
  {
    |after| == |before| + n && after[..|before|] == before &&
    forall j :: |before| <= j < |after| ==>
      if msg.kind == Invalidate then after[j] == msg
      else after[j].kind == Complete && after[j].data == WriteData
  }

  /** The outcome of one directory step. `Crashed` is a directed pull from an
      empty per-sender list, where the source raises an IndexError. */
  datatype StepOutcome = Idle | Crashed | Serviced(sender: nat, msg: Message)

  /** Each queued request comes from a node with a mailbox and, when it
      indexes the sharer table, stays inside it. */
  ghost predicate Requests(q: seq<Entry>, mailboxes: seq<Mailbox?>, size: nat)
  {
    forall i :: 0 <= i < |q| ==>
      q[i].sender < |mailboxes| && mailboxes[q[i].sender] != null &&
      Addressable(size, q[i].msg.kind, q[i].msg.data)
  }

  lemma RequestsSuffix(q: seq<Entry>, mailboxes: seq<Mailbox?>, size: nat, k: nat)
    requires Requests(q, mailboxes, size) && k <= |q|
    ensures Requests(q[k..], mailboxes, size)
  {
    assert forall i :: 0 <= i < |q| - k ==> q[k..][i] == q[k + i];
  }

  /** How a step retrieves its request, over the pending (pruned) queue and
      the per-sender lists before it, the marked node and the queue and lists
      after it. */
  predicate Pulled(pending: seq<Entry>, inputs: seq<seq<Message>>, writeId: Option<nat>,
                   outcome: StepOutcome, queue: seq<Entry>, inputs': seq<seq<Message>>)
  {
    match outcome
    case Idle =>
      pending == [] && queue == pending && inputs' == inputs
    case Crashed =>
      pending != [] && writeId.Some? && writeId.value < |inputs| && inputs[writeId.value] == [] &&
      queue == pending && inputs' == inputs
    case Serviced(sender, msg) =>
      pending != [] && sender < |inputs| && inputs[sender] != [] && msg == inputs[sender][0] &&
      inputs' == inputs[sender := inputs[sender][1..]] &&
      if writeId.Some? then sender == writeId.value && queue == pending
      else pending[0] == Entry(sender, msg) && queue == pending[1..]
  }

  /** The retrieval rule decides the outcome: idle on an empty queue, a
      failure when the marked node has nothing pending, otherwise a request. */
  lemma PulledOutcome(pending: seq<Entry>, inputs: seq<seq<Message>>, writeId: Option<nat>,
                      outcome: StepOutcome, queue: seq<Entry>, inputs': seq<seq<Message>>)
    requires Pulled(pending, inputs, writeId, outcome, queue, inputs')
    ensures outcome.Idle? <==> pending == []
    ensures outcome.Crashed? <==>
      pending != [] && writeId.Some? && writeId.value < |inputs| && inputs[writeId.value] == []
    ensures outcome.Serviced? && writeId.None? ==> outcome.sender == pending[0].sender
  {
  }

  class DirectoryProcessor {
    const postOffice: PostOffice
    /** The sharer table; the source calls this list `directory`. */
    const sharers: array<seq<nat>>
    var writeAddress: Option<int>
    var writeId: Option<nat>

    constructor (postOffice: PostOffice, sharers: array<seq<nat>>)
      ensures this.postOffice == postOffice && this.sharers == sharers
      ensures writeAddress == None && writeId == None
    {
      this.postOffice := postOffice;
      this.sharers := sharers;
      writeAddress := None;
      writeId := None;
    }

    function State(): DirState
      reads this, sharers
    {
      DirState(sharers[..], writeAddress, writeId)
    }

    /** Every node the directory may write to has a mailbox. */
    ghost predicate SharersRegistered()
      reads this, sharers, postOffice
    {
      forall a, j :: 0 <= a < sharers.Length && 0 <= j < |sharers[a]| ==> postOffice.Registered(sharers[a][j])
    }

    /** The marker's two halves are set together and every node named in
        the table or the marker is registered. */
    ghost predicate Consistent()
      reads this, sharers, postOffice
    {
      (writeAddress.Some? <==> writeId.Some?) &&
      (writeId.Some? ==> postOffice.Registered(writeId.value)) &&
      SharersRegistered()
    }

    /** The post office's views agree and the directory is consistent. */
    ghost predicate Valid()
      reads this, sharers, postOffice, MessagesOf(postOffice.queue)
    {
      postOffice.Valid() && Consistent()
    }

    /** What the source needs of queued requests to service them without
        failing: a registered sender and an address inside the table. */
    ghost predicate Serviceable()
      reads this, postOffice
    {
      Requests(postOffice.queue, postOffice.mailboxes, sharers.Length)
    }

    /** INVALIDATE(addr) from `nodeId`: forwards the message to the sharers of
        `addr` other than one listing of `nodeId`, makes `nodeId` the sole
        sharer and sets the marker to (addr, nodeId). */
    method HandleInvalidate(nodeId: nat, msg: Message)
      requires 0 <= msg.data < sharers.Length
      requires postOffice.MailboxesIndexed() && SharersRegistered()
      modifies this, sharers, postOffice.MailboxSet()
      ensures State() == Dispatch(old(State()), nodeId, Invalidate, msg.data)
      ensures forall k: nat :: postOffice.Registered(k) ==>
        postOffice.mailboxes[k].inbox ==
          old(postOffice.mailboxes[k].inbox) + Repeat(msg, multiset(RemoveFirst(old(sharers[msg.data]), nodeId))[k])
    {
      var addr := msg.data;
      var cached := RemoveFirst(sharers[addr], nodeId);
      postOffice.SendMessages(cached, msg);
      sharers[addr] := [nodeId];
      writeAddress := Some(addr);
      writeId := Some(nodeId);
    }

    /** COMPLETE: the pending write is committed and the marker cleared. */
    method HandleWrite(nodeId: nat, msg: Message)
      modifies this
      ensures State() == Dispatch(old(State()), nodeId, Complete, msg.data)
    {
      writeAddress := None;
      writeId := None;
    }

    /** FETCH(addr) from `nodeId`: grants the line with a fresh COMPLETE to
        `nodeId`'s mailbox and lists `nodeId` as a sharer of `addr`. */
    method HandleRead(nodeId: nat, msg: Message)
      requires 0 <= msg.data < sharers.Length
      requires postOffice.MailboxesIndexed() && postOffice.Registered(nodeId)
      modifies sharers, postOffice.mailboxes[nodeId]
      ensures State() == Dispatch(old(State()), nodeId, Fetch, msg.data)
      ensures var inbox, before := postOffice.mailboxes[nodeId].inbox, old(postOffice.mailboxes[nodeId].inbox);
        |inbox| == |before| + 1 && inbox[..|before|] == before &&
        fresh(inbox[|before|]) && inbox[|before|].kind == Complete && inbox[|before|].data == WriteData
    {
      var addr := msg.data;
      var grant := new Message(Complete, WriteData);
      postOffice.SendMessage(nodeId, grant);
      sharers[addr] := sharers[addr] + [nodeId];
    }

    /** Dispatches a pulled request on its kind; other kinds change nothing. */
    method Dispatched(sender: nat, msg: Message)
      requires Addressable(sharers.Length, msg.kind, msg.data)
      requires postOffice.MailboxesIndexed() && postOffice.Registered(sender) && Consistent()
      modifies this, sharers, postOffice.MailboxSet()
      ensures State() == Dispatch(old(State()), sender, msg.kind, msg.data)
      ensures Consistent()
      ensures forall k: nat :: postOffice.Registered(k) ==>
        Delivered(old(postOffice.mailboxes[k].inbox), postOffice.mailboxes[k].inbox,
                  multiset(Recipients(old(State()), sender, msg.kind, msg.data))[k], msg)
    {
      if msg.kind == Invalidate {
        HandleInvalidate(sender, msg);
      } else if msg.kind == Complete {
        HandleWrite(sender, msg);
      } else if msg.kind == Fetch {
        HandleRead(sender, msg);
        assert forall k: nat :: postOffice.Registered(k) && k != sender ==> postOffice.mailboxes[k] != postOffice.mailboxes[sender];
      }
    }

    /** The service half of a step: dispatch the pulled request, then mark it
        handled so that `Empty` can prune it. */
    method Service(sender: nat, msg: Message)
      requires Addressable(sharers.Length, msg.kind, msg.data)
      requires postOffice.Valid() && postOffice.Registered(sender) && Consistent()
      requires !msg.handled && (msg in MessagesOf(postOffice.queue) ==> msg in postOffice.taken)
      requires TakenHandled(postOffice.queue, postOffice.taken - {msg})
      modifies this, sharers, postOffice.MailboxSet(), msg
      ensures Valid() && postOffice.Settled()
      ensures State() == Dispatch(old(State()), sender, msg.kind, msg.data)
      ensures msg.handled
      ensures forall k: nat :: postOffice.Registered(k) ==>
        Delivered(old(postOffice.mailboxes[k].inbox), postOffice.mailboxes[k].inbox,
                  multiset(Recipients(old(State()), sender, msg.kind, msg.data))[k], msg)
    {
      Dispatched(sender, msg);
      postOffice.MarkHandled(msg);
    }

    /** The retrieval half of a step: prune the handled front of the queue
        and, if requests remain, pull one from the marked node's own list
        while the marker is set, otherwise the oldest in the queue. */
    method Pull() returns (outcome: StepOutcome)
      requires Valid() && postOffice.Settled() && Serviceable()
      modifies postOffice
      ensures postOffice.Valid() && Serviceable() && postOffice.mailboxes == old(postOffice.mailboxes)
      ensures Pulled(old(PruneHandled(postOffice.queue)), old(postOffice.inputMessages), writeId,
                     outcome, postOffice.queue, postOffice.inputMessages)
      ensures outcome.Serviced? ==>
        postOffice.Registered(outcome.sender) &&
        Addressable(sharers.Length, outcome.msg.kind, outcome.msg.data) &&
        outcome.msg in old(MessagesOf(postOffice.queue)) && !outcome.msg.handled &&
        (outcome.msg in MessagesOf(postOffice.queue) ==> outcome.msg in postOffice.taken)
      ensures outcome.Serviced? ==> TakenHandled(postOffice.queue, postOffice.taken - {outcome.msg})
      ensures !outcome.Serviced? ==> postOffice.Settled()
    {
      PruneHandledSuffix(postOffice.queue);
      ghost var q0 := postOffice.queue;
      var isEmpty := postOffice.Empty();
      RequestsSuffix(q0, postOffice.mailboxes, sharers.Length, |q0| - |postOffice.queue|);
      if isEmpty {
        return Idle;
      }
      if writeAddress.Some? {
        // The source pops from the list without checking it: an empty list raises.
        if postOffice.inputMessages[writeId.value] == [] {
          return Crashed;
        }
        var sender, msg := postOffice.GetMessage(writeId.value);
        outcome := Serviced(sender, msg);
      } else {
        RequestsSuffix(postOffice.queue, postOffice.mailboxes, sharers.Length, 1);
        var sender, msg := postOffice.GetFrontMessage();
        outcome := Serviced(sender, msg);
      }
    }

    /** One iteration of the directory loop: pull a request, service it and
        mark it handled. */
    method Step() returns (outcome: StepOutcome)
      requires Valid() && postOffice.Settled() && Serviceable()
      modifies this, sharers, postOffice, postOffice.MailboxSet(), MessagesOf(postOffice.queue)
      ensures Valid() && postOffice.Settled() && Serviceable()
      ensures postOffice.mailboxes == old(postOffice.mailboxes)
      ensures Pulled(old(PruneHandled(postOffice.queue)), old(postOffice.inputMessages), old(writeId),
                     outcome, postOffice.queue, postOffice.inputMessages)
      ensures outcome.Serviced? ==>
        Addressable(sharers.Length, outcome.msg.kind, outcome.msg.data) &&
        State() == Dispatch(old(State()), outcome.sender, outcome.msg.kind, outcome.msg.data) &&
        outcome.msg.handled && !old(outcome.msg.handled)
      ensures !outcome.Serviced? ==> State() == old(State())
      ensures forall m: Message :: old(allocated(m)) && !(outcome.Serviced? && m == outcome.msg) ==>
        m.handled == old(m.handled)
      ensures outcome.Serviced? ==> forall k: nat :: postOffice.Registered(k) ==>
        Delivered(old(postOffice.mailboxes[k].inbox), postOffice.mailboxes[k].inbox,
                  multiset(Recipients(old(State()), outcome.sender, outcome.msg.kind, outcome.msg.data))[k], outcome.msg)
      ensures !outcome.Serviced? ==> forall k: nat :: postOffice.Registered(k) ==>
        postOffice.mailboxes[k].inbox == old(postOffice.mailboxes[k].inbox)
    {
      outcome := Pull();
      if outcome.Serviced? {
        Service(outcome.sender, outcome.msg);
      }
    }
  }

  /** The directory node: the post office for `pnodes` nodes and a directory
      processor whose sharer table has one empty entry per cache address. */
  class DirectoryNode {
    const postOffice: PostOffice
    const processor: DirectoryProcessor

    constructor (pnodes: nat, cacheSize: nat)
      ensures fresh(postOffice) && fresh(processor) && fresh(processor.sharers)
      ensures processor.postOffice == postOffice
      ensures processor.Valid() && postOffice.Settled() && processor.Serviceable()
      ensures processor.State() == DirState(Repeat([], cacheSize), None, None)
      ensures |postOffice.mailboxes| == pnodes && forall i :: 0 <= i < pnodes ==> postOffice.mailboxes[i] == null
      ensures postOffice.inputMessages == Repeat([], pnodes) && postOffice.queue == []
    {
      var office := new PostOffice(pnodes);
      var sharers := new seq<nat>[cacheSize](_ => []);
      postOffice := office;
      processor := new DirectoryProcessor(office, sharers);
    }
  }
}
