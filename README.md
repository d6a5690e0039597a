# Directory-based cache coherence: a Dafny model of the bookkeeping

The system simulates processing nodes that share memory through a central
directory. Each node keeps a valid bit per cache address. To read an address
it does not hold, a node sends FETCH to the directory. To write, it sends
INVALIDATE and then COMPLETE. The directory keeps a sharer table. For each
address it lists the nodes that read it since the last serviced INVALIDATE of
that address; that INVALIDATE's sender heads the list. It also keeps a
pending-write marker. It services one request per step, pulling from the
post office.

The post office holds node-to-directory traffic in two views:

- a list per sender;
- one chronological queue of (sender, message) pairs.

Directory-to-node traffic (forwarded INVALIDATEs and the COMPLETE that grants
a read) goes to per-node mailboxes.

The model covers all of this bookkeeping. Each step of the simulation's
cooperative processes is modelled as one atomic method, and virtual time and
latencies are dropped. There are four modules.

- `Messages` (messages.dfy) holds the message class and the kind constants:
  INVALIDATE 0, COMPLETE 1, FETCH 2, and the write payload 123.
- `Fabric` (fabric.dfy) holds the `Mailbox` and `PostOffice` classes.
  - The central invariant is `PostOffice.Valid`: each sender's list is, in
    order, that sender's queued messages, minus those a directed pull already
    took.
  - Those taken messages are tracked in a ghost set `taken`. Their entries
    stay queued until they are handled and pruned.
  - `Settled` (every taken message is handled) holds between directory steps.
- `Directory` (directory.dfy) holds the directory processor, its step and the
  directory node.
  - The pure specification is `Dispatch`, which is the state change of one
    serviced request.
  - `Replay` applies a sequence of requests. Lemmas over it give
    exclusivity after a write and the origin of every sharer.
  - `Pulled` is the retrieval rule.
- `Node` (node.dfy) holds a processing node's coherence logic.
  - The pure specification is `Handle`/`Run` for incoming messages and
    `Await` for the read-miss wait.
  - The `Processor` class works on a valid-bit array and an "awaiting" marker.
  - The module also holds the processing node's construction.

A failure in the source (an `IndexError` on an address outside the tables, a
COMPLETE with no awaited address, a send to an unregistered node) becomes a
precondition. The exception is the directed pull from an empty list: `Step`
reports it as the outcome `Crashed`, because the source's run loop reaches it
without any guard.

Three details of the code shape the model:

- a node's commit message carries the payload 123 (model.py:118), not the
  address;
- a processing node silently ignores message kinds other than 0 and 1
  (model.py:84-92);
- a sharer entry is a list with repetitions: a read appends even when the node
  is already listed (model.py:219), and removal drops only the first
  occurrence (model.py:195).

The table below names members with contracts. The predicates those
contracts rest on are:

- `Fabric.PostOffice.Valid`, with `Fabric.Untaken` and `Fabric.Agree`: the
  two views of the store agree (model.py:125-176);
- `Fabric.PostOffice.Settled`: every pulled message still queued is handled,
  which holds between directory steps (model.py:140-151, 245);
- `Directory.Pulled`: the retrieval rule of one directory step
  (model.py:225-236);
- `Directory.Recipients` and `Directory.Delivered`: the mailbox deliveries of
  a serviced request (model.py:198, 217);
- `Directory.DirectoryProcessor.Consistent`: the marker's two halves move
  together, and every node named in the table or the marker has a mailbox
  (model.py:201-210).

## Model

| member | source | states |
|---|---|---|
| `Messages.Message.constructor` | model.py:18-23 | a new message has the given kind and payload and is not handled |
| `Fabric.PruneHandled` | model.py:140-151 | only leading handled entries are dropped; what is left is empty or starts with an unhandled entry |
| `Fabric.PruneHandledSuffix` | model.py:140-151 | the pruned queue is a suffix of the original, so the order of what is left is kept |
| `Fabric.PruneHandledAt` | model.py:144-149 | pruning stops exactly at the first unhandled entry |
| `Fabric.PruneHandledIdempotent` | model.py:140-151 | pruning a pruned queue changes nothing, so a second `empty()` in a row removes nothing |
| `Fabric.UntakenAppend` | model.py:135-138 | appending an entry adds its message to its own sender's view and to no other sender's |
| `Fabric.UntakenFrom` | model.py:161-164 | every message in a sender's list is a queued entry of that sender that has not been taken |
| `Fabric.UntakenTakeFirst` | model.py:161-164 | taking a sender's oldest message removes exactly the front of that sender's list and leaves every other list alone |
| `Fabric.UntakenDropTaken` | model.py:144-149 | dropping a taken front entry leaves every sender's list the same |
| `Fabric.PruneFrontAgrees` | model.py:144-149 | pruning one handled front entry keeps the two views in agreement |
| `Fabric.PruneStep` | model.py:144-149 | one iteration of the pruning loop keeps the loop state: prefix dropped, views agreeing, settled state kept |
| `Fabric.Mailbox.constructor` | model.py:27-32 | the new mailbox is empty and registered under its id; the post office's queue and lists are unchanged |
| `Fabric.Mailbox.Empty` | model.py:34-36 | true exactly when the inbox holds no message |
| `Fabric.Mailbox.GetMessage` | model.py:38-40 | returns the oldest message and removes only it; needs a non-empty inbox |
| `Fabric.Mailbox.GetMessages` | model.py:42-46 | returns every pending message in arrival order and leaves the inbox empty |
| `Fabric.Mailbox.SendMessage` | model.py:48-51 | the node's request is filed at the post office under the node's own id, keeping the views in agreement |
| `Fabric.Mailbox.LeaveMessage` | model.py:53-55 | appends the message at the end of the inbox |
| `Fabric.PostOffice.constructor` | model.py:126-130 | no mailbox registered, every list empty, an empty queue; the views agree |
| `Fabric.PostOffice.RegisterMailbox` | model.py:132-133 | installs the mailbox under its id; the message store is unchanged |
| `Fabric.PostOffice.LeaveMessage` | model.py:135-138 | appends the message to the sender's list and the pair to the queue; every other list is unchanged; the views still agree |
| `Fabric.PostOffice.Empty` | model.py:140-151 | the queue becomes `PruneHandled` of the old queue and the result is true exactly when nothing is left; the views still agree |
| `Fabric.PostOffice.GetFrontMessage` | model.py:153-159 | returns and removes the oldest pair and exactly the front of that sender's list; all other lists are untouched |
| `Fabric.PostOffice.GetMessage` | model.py:161-164 | returns and removes the front of one sender's list; the queue is unchanged and the stale entry becomes taken; needs a non-empty list |
| `Fabric.PostOffice.MarkHandled` | model.py:245 | setting `handled` on the pulled message restores the settled state, so a later prune may drop it |
| `Fabric.PostOffice.SendMessages` | model.py:166-171 | each registered node receives the message once per listing, appended after its earlier messages |
| `Fabric.PostOffice.SendMessage` | model.py:173-176 | the recipient's inbox gets the message appended |
| `Directory.RemoveFirst` | model.py:193-197 | removing an absent id is a no-op; a present id shortens the list by one and adds nothing |
| `Directory.RemoveFirstAt` | model.py:195 | what is removed is the first occurrence, and the rest keeps its order |
| `Directory.RemoveFirstCount` | model.py:195 | exactly one occurrence of the id is removed, when there is one |
| `Directory.Dispatch` | model.py:239-244 | a serviced request keeps the size of the sharer table |
| `Directory.DispatchMarker` | model.py:201-210 | the marker's address and node are set and cleared together; only COMPLETE clears it; only INVALIDATE or COMPLETE changes it |
| `Directory.Replay` | model.py:221-245 | servicing a sequence of requests keeps the size of the sharer table |
| `Directory.ReplaySharers` | model.py:201-219 | every node in a sharer entry was there before or sent one of the serviced requests |
| `Directory.InvalidateExclusive` | model.py:189-203 | after a node's INVALIDATE of an address, that node is the only sharer of it until a later INVALIDATE or FETCH of that address |
| `Directory.UntouchedKeeps` | model.py:205-219 | requests for other addresses leave an address's sharer entry unchanged |
| `Directory.RequestsSuffix` | model.py:144-159 | dropping queue entries from the front keeps every remaining request serviceable |
| `Directory.PulledOutcome` | model.py:225-236 | a step is idle exactly when the pruned queue is empty; it fails exactly when the marker is set and the marked node's list is empty; otherwise it services a request, the oldest one when the marker is clear |
| `Directory.DirectoryProcessor.constructor` | model.py:180-186 | the marker starts cleared |
| `Directory.DirectoryProcessor.HandleInvalidate` | model.py:189-203 | forwards the INVALIDATE to the address's sharers less one listing of the requester; the requester becomes the sole sharer; the marker becomes (address, requester); other addresses are unchanged |
| `Directory.DirectoryProcessor.HandleWrite` | model.py:205-210 | clears both halves of the marker and changes nothing else |
| `Directory.DirectoryProcessor.HandleRead` | model.py:212-219 | appends the requester to the address's sharer entry, keeping earlier entries, and appends one fresh COMPLETE(123) to that node's inbox only |
| `Directory.DirectoryProcessor.Dispatched` | model.py:239-244 | kinds 0, 1 and 2 go to invalidate, write and read; any other kind changes neither the directory nor any inbox |
| `Directory.DirectoryProcessor.Service` | model.py:237-245 | dispatches, then marks the message handled, leaving the post office valid and settled |
| `Directory.DirectoryProcessor.Pull` | model.py:224-236 | prunes, then pulls by `Pulled`: from the marked node's list while the marker is set, otherwise the oldest queued pair |
| `Directory.DirectoryProcessor.Step` | model.py:221-245 | one loop iteration pulls by `Pulled` and changes the directory by `Dispatch`; the serviced message becomes handled and no other flag changes, so `handled` is never reset; inboxes receive exactly the step's deliveries; the views stay in agreement |
| `Directory.DirectoryNode.constructor` | model.py:248-253 | an empty sharer entry for each address, a cleared marker, and a post office for `pnodes` nodes with no traffic |
| `Node.Handle` | model.py:82-92 | INVALIDATE clears the bit of its payload; COMPLETE sets the awaited address's bit and clears the marker; any other kind is ignored; no other bit changes |
| `Node.Run` | model.py:94-99 | handling a list of messages keeps the number of bits |
| `Node.Await` | model.py:111-114 | the wait consumes a prefix of the inbox; the awaited bit is clear after every shorter prefix, so it stops at the first message that sets it or when the inbox is exhausted; its state is `Run` over what it consumed |
| `Node.RunGainsOnlyAwaited` | model.py:82-92 | handling messages sets no bit except that of the awaited address |
| `Node.RunKeepsAwaiting` | model.py:87-92 | handling leaves the awaiting marker as it was or cleared |
| `Node.RunKeepsBits` | model.py:84-89 | bits stay 0 or 1, so the wait's exit condition "bit not 0" means "bit is 1" |
| `Node.Processor.constructor` | model.py:59-65 | a new processor awaits nothing |
| `Node.Processor.HandleMessage` | model.py:82-92 | the new local state is `Handle` of the old one |
| `Node.Processor.HandleMessages` | model.py:94-99 | the new local state is `Run` of the old one over the messages, in order |
| `Node.Processor.AwaitFill` | model.py:111-114 | the inbox loses the prefix that `Await` consumes and the state becomes `Await`'s; it returns true exactly when the bit is set, and otherwise the inbox is empty |
| `Node.Processor.Request` | model.py:48-51 | a fresh message of the given kind and payload is filed under the node's id |
| `Node.Processor.ReadAccess` | model.py:103-114 | the whole inbox is handled first; on a hit nothing is sent; on a miss one fresh FETCH(address) is filed and the node awaits that address |
| `Node.Processor.SendWrite` | model.py:117-118 | INVALIDATE(address) then COMPLETE(123) are filed, in that order, under the node's id |
| `Node.Processor.WriteAccess` | model.py:115-122 | the two requests are filed in order; the inbox that was set aside is then handled; the address's bit ends at 1 |
| `Node.ProcessingNode.constructor` | model.py:257-264 | the mailbox is registered under the node's id, every valid bit is 0 and nothing is awaited |

## Left out

- Virtual time is not modelled. That covers the simpy environment, every
  `env.timeout` and `env.process`, and the interleaving of processes. Each
  handler is one atomic step, and so is each sub-process a handler waits for.
  A node's write path therefore files its two requests without the
  directory running in between. The directed pull from an empty list is
  still reported as the outcome `Crashed`, not proved unreachable.
- `Cache.read` and `Cache.write` (model.py:4-15) only add latency and hold no
  state. The caches built in `DirectoryNode` and `ProcessingNode` are left
  out as well.
- `Processor.proc` and `Processor.run` (model.py:67-80) are left out. They
  draw random numbers, compare against a probability, count instructions
  and loop forever. Their role is to choose between `ReadAccess` and
  `WriteAccess`, which callers do directly.
- All `print` logging is left out.
- The `__main__` driver and experiment.py are not part of this model.
- Node.Processor.AwaitFill: the source spins on the clock until the bit is
  set. The model handles what the inbox holds and returns; calling it again
  stands for resuming after more messages arrive.
- Node.Processor.ReadAccess: when the read misses, the wait is a separate
  call to `AwaitFill`, not part of this method.
- Python's negative list indices are not modelled. Addresses, payloads and
  node ids are required to be inside their tables, as every caller in the
  source ensures.
