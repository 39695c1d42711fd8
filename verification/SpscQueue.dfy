/**
 The lock-free queue `SimpleQueue`: one producer thread, one consumer thread, and a heap of
 nodes. Every access to a shared location is one step; the two threads interleave in any way
 (sequentially consistent, the default of `std::atomic`). Reading or deleting a node that is
 not allocated is a fault. Freed addresses may be handed out again by later allocations.
 */
module SpscQueue {
  import opened Basics

  type Item = int

  /** Addresses; 0 is the null pointer. */
  type Ptr = nat

  const NULL: Ptr := 0

  datatype Node = Node(data: Item, next: Ptr)

  /** Where the producer is inside `push`, with the values it has read. */
  datatype Producer =
    | PIdle
    | PAlloc(item: Item)               // new Node(item)
    | PLoadTail(node: Ptr)            // load last_node
    | PLink(node: Ptr, tail: Ptr)     // last_node->next = node
    | PLoadTailAgain                   // load last_node
    | PLoadNext(tail: Ptr)             // load last_node->next
    | PPublish(next: Ptr)              // store last_node
    | PScan                            // first_node != barrier_node
    | PUnlink                          // tmp = first_node; first_node = first_node->next
    | PDelete(tmp: Ptr)                // delete tmp

  /** Where the consumer is inside `pop`. */
  datatype Consumer =
    | CIdle
    | CLoadBarrier                     // load barrier_node
    | CCompare(barrier: Ptr)           // barrier_node != last_node
    | CLoadBarrierForData
    | CLoadNextForData(barrier: Ptr)   // barrier_node->next
    | CLoadData(next: Ptr)             // ->data
    | CLoadBarrierForNext(got: Item)
    | CLoadNext(barrier: Ptr, got: Item)
    | CAdvance(next: Ptr, got: Item)   // store barrier_node; return true

  datatype State = State(
    heap: map<Ptr, Node>,
    first: Ptr, barrier: Ptr, last: Ptr,
    producer: Producer, consumer: Consumer,
    pushed: seq<Item>,                 // arguments of push, in call order
    popped: seq<Item>)                 // items returned by pop, in order

  datatype Action =
    | BeginPush(item: Item)
    | Allocate(address: Ptr)
    | StepProducer
    | BeginPop
    | StepConsumer

  datatype Outcome = Disabled | Fault | Next(state: State)

  /** The constructor: one separator node. */
  function Initial(separator: Ptr, blank: Item): State {
    State(map[separator := Node(blank, NULL)], separator, separator, separator, PIdle, CIdle, [], [])
  }

  function Step(s: State, a: Action): Outcome {
    match a
    case BeginPush(item) =>
      if s.producer == PIdle then Next(s.(producer := PAlloc(item), pushed := s.pushed + [item])) else Disabled
    case Allocate(address) =>
      if s.producer.PAlloc? && address != NULL && address !in s.heap
      then Next(s.(heap := s.heap[address := Node(s.producer.item, NULL)], producer := PLoadTail(address)))
      else Disabled
    case StepProducer => StepP(s)
    case BeginPop => if s.consumer == CIdle then Next(s.(consumer := CLoadBarrier)) else Disabled
    case StepConsumer => StepC(s)
  }

  function StepP(s: State): Outcome {
    match s.producer
    case PIdle => Disabled
    case PAlloc(_) => Disabled
    case PLoadTail(node) => Next(s.(producer := PLink(node, s.last)))
    case PLink(node, tail) =>
      if tail !in s.heap then Fault
      else Next(s.(heap := s.heap[tail := s.heap[tail].(next := node)], producer := PLoadTailAgain))
    case PLoadTailAgain => Next(s.(producer := PLoadNext(s.last)))
    case PLoadNext(tail) => if tail !in s.heap then Fault else Next(s.(producer := PPublish(s.heap[tail].next)))
    case PPublish(next) => Next(s.(last := next, producer := PScan))
    case PScan => Next(s.(producer := if s.first != s.barrier then PUnlink else PIdle))
    case PUnlink =>
      if s.first !in s.heap then Fault
      else Next(s.(first := s.heap[s.first].next, producer := PDelete(s.first)))
    case PDelete(tmp) =>
      if tmp !in s.heap then Fault else Next(s.(heap := s.heap - {tmp}, producer := PScan))
  }

  function StepC(s: State): Outcome {
    match s.consumer
    case CIdle => Disabled
    case CLoadBarrier => Next(s.(consumer := CCompare(s.barrier)))
    case CCompare(barrier) => Next(s.(consumer := if barrier != s.last then CLoadBarrierForData else CIdle))
    case CLoadBarrierForData => Next(s.(consumer := CLoadNextForData(s.barrier)))
    case CLoadNextForData(barrier) =>
      if barrier !in s.heap then Fault else Next(s.(consumer := CLoadData(s.heap[barrier].next)))
    case CLoadData(next) =>
      if next !in s.heap then Fault else Next(s.(consumer := CLoadBarrierForNext(s.heap[next].data)))
    case CLoadBarrierForNext(got) => Next(s.(consumer := CLoadNext(s.barrier, got)))
    case CLoadNext(barrier, got) =>
      if barrier !in s.heap then Fault else Next(s.(consumer := CAdvance(s.heap[barrier].next, got)))
    case CAdvance(next, got) => Next(s.(barrier := next, consumer := CIdle, popped := s.popped + [got]))
  }

  /** The state after a run; actions that are not enabled are skipped, a fault ends the run. */
  function Run(s: State, actions: seq<Action>): Outcome
    decreases |actions|
  {
    if actions == [] then Next(s)
    else
      match Run(s, actions[..|actions| - 1])
      case Next(t) => (match Step(t, actions[|actions| - 1]) case Disabled => Next(t) case o => o)
      case o => o
  }

  // ----- the invariant

  /** The nodes from `first` on; `b` and `l` are the positions of `barrier` and `last` among them. */
  datatype Chain = Chain(nodes: seq<Ptr>, b: nat, l: nat)

  /** A node allocated but not yet linked, or unlinked but not yet deleted; otherwise null. */
  function Loose(p: Producer): Ptr {
    match p
    case PLoadTail(node) => node
    case PLink(node, _) => node
    case PDelete(tmp) => tmp
    case _ => NULL
  }

  /** Linked behind `last` but not yet published. */
  predicate Unpublished(p: Producer) {
    p.PLoadTailAgain? || p.PLoadNext? || p.PPublish?
  }

  /** Pushed but not yet linked. */
  predicate Unlinked(p: Producer) {
    p.PAlloc? || p.PLoadTail? || p.PLink?
  }

  ghost predicate Linked(heap: map<Ptr, Node>, nodes: seq<Ptr>) {
    (forall i :: 0 <= i < |nodes| ==> nodes[i] in heap && nodes[i] != NULL) &&
    (forall i, j :: 0 <= i < j < |nodes| ==> nodes[i] != nodes[j]) &&
    (forall i, j :: 0 <= i && j == i + 1 < |nodes| ==> heap[nodes[i]].next == nodes[j]) &&
    (|nodes| > 0 ==> heap[nodes[|nodes| - 1]].next == NULL)
  }

  ghost predicate Shape(s: State, c: Chain) {
    c.b <= c.l < |c.nodes| &&
    Linked(s.heap, c.nodes) &&
    s.first == c.nodes[0] && s.barrier == c.nodes[c.b] && s.last == c.nodes[c.l] &&
    |c.nodes| == c.l + 1 + (if Unpublished(s.producer) then 1 else 0) &&
    |s.heap| == |c.nodes| + (if Loose(s.producer) == NULL then 0 else 1) &&
    (Loose(s.producer) != NULL ==> Loose(s.producer) in s.heap) &&
    (forall i :: 0 <= i < |c.nodes| ==> c.nodes[i] != Loose(s.producer))
  }

  /** The items in the nodes behind the barrier are those pushed and not yet popped, in order. */
  ghost predicate Contents(s: State, c: Chain)
    requires Shape(s, c)
  {
    |s.pushed| == |s.popped| + (|c.nodes| - 1 - c.b) + (if Unlinked(s.producer) then 1 else 0) &&
    s.popped <= s.pushed &&
    (forall i {:trigger c.nodes[i]} :: c.b < i < |c.nodes| ==>
      s.heap[c.nodes[i]].data == s.pushed[|s.popped| + i - c.b - 1])
  }

  ghost predicate ProducerOk(s: State, c: Chain)
    requires Shape(s, c)
  {
    match s.producer
    case PAlloc(item) => |s.pushed| > 0 && item == s.pushed[|s.pushed| - 1]
    case PLoadTail(node) =>
      node != NULL && |s.pushed| > 0 && s.heap[node] == Node(s.pushed[|s.pushed| - 1], NULL)
    case PLink(node, tail) =>
      node != NULL && |s.pushed| > 0 && s.heap[node] == Node(s.pushed[|s.pushed| - 1], NULL) && tail == s.last
    case PLoadNext(tail) => tail == s.last
    case PPublish(next) => next == c.nodes[c.l + 1]
    case PUnlink => c.b > 0
    case PDelete(tmp) => tmp != NULL
    case _ => true
  }

  ghost predicate ConsumerOk(s: State, c: Chain)
    requires Shape(s, c)
  {
    match s.consumer
    case CCompare(barrier) => barrier == s.barrier
    case CLoadBarrierForData => c.b < c.l
    case CLoadNextForData(barrier) => barrier == s.barrier && c.b < c.l
    case CLoadData(next) => c.b < c.l && next == c.nodes[c.b + 1]
    case CLoadBarrierForNext(got) => c.b < c.l && got == s.heap[c.nodes[c.b + 1]].data
    case CLoadNext(barrier, got) => barrier == s.barrier && c.b < c.l && got == s.heap[c.nodes[c.b + 1]].data
    case CAdvance(next, got) => c.b < c.l && next == c.nodes[c.b + 1] && got == s.heap[c.nodes[c.b + 1]].data
    case _ => true
  }

  ghost predicate Inv(s: State, c: Chain) {
    Shape(s, c) && Contents(s, c) && ProducerOk(s, c) && ConsumerOk(s, c)
  }

  /** How a step changes the chain. */
  function NextChain(s: State, c: Chain, a: Action): Chain {
    match a
    case StepProducer =>
      (match s.producer
       case PLink(node, _) => c.(nodes := c.nodes + [node])
       case PPublish(_) => c.(l := c.l + 1)
       case PUnlink => if |c.nodes| > 0 && c.b > 0 && c.l > 0 then Chain(c.nodes[1..], c.b - 1, c.l - 1) else c
       case _ => c)
    case StepConsumer => if s.consumer.CAdvance? then c.(b := c.b + 1) else c
    case _ => c
  }

  lemma InitialInv(separator: Ptr, blank: Item)
    requires separator != NULL
    ensures Inv(Initial(separator, blank), Chain([separator], 0, 0))
  {
  }

  lemma AllocateInv(s: State, c: Chain, address: Ptr)
    requires Inv(s, c) && s.producer.PAlloc? && address != NULL && address !in s.heap
    ensures Inv(s.(heap := s.heap[address := Node(s.producer.item, NULL)], producer := PLoadTail(address)), c)
  {
  }

  lemma LinkedAppend(heap: map<Ptr, Node>, nodes: seq<Ptr>, node: Ptr)
    requires Linked(heap, nodes) && nodes != []
    requires node in heap && node !in nodes && node != NULL && heap[node].next == NULL
    ensures var tail := nodes[|nodes| - 1];
            Linked(heap[tail := heap[tail].(next := node)], nodes + [node])
  {
    var tail := nodes[|nodes| - 1];
    assert forall i :: 0 <= i < |nodes| - 1 ==> nodes[i] != tail;
  }

  lemma LinkedTail(heap: map<Ptr, Node>, nodes: seq<Ptr>)
    requires Linked(heap, nodes) && |nodes| > 1
    ensures Linked(heap, nodes[1..]) && nodes[0] !in nodes[1..]
    ensures heap[nodes[0]].next == nodes[1..][0]
  {
    assert forall i :: 0 <= i < |nodes| - 1 ==> nodes[1..][i] == nodes[i + 1];
  }

  lemma LinkedWithout(heap: map<Ptr, Node>, nodes: seq<Ptr>, p: Ptr)
    requires Linked(heap, nodes) && p !in nodes
    ensures Linked(heap - {p}, nodes)
  {
  }

  lemma LinkShape(s: State, c: Chain)
    requires Inv(s, c) && s.producer.PLink?
    ensures StepP(s).Next? && Shape(StepP(s).state, NextChain(s, c, StepProducer))
  {
    assert s.producer.tail == c.nodes[|c.nodes| - 1];
    LinkedAppend(s.heap, c.nodes, s.producer.node);
  }

  lemma LinkContents(s: State, c: Chain)
    requires Inv(s, c) && s.producer.PLink?
    requires StepP(s).Next? && Shape(StepP(s).state, NextChain(s, c, StepProducer))
    ensures Contents(StepP(s).state, NextChain(s, c, StepProducer))
  {
    var t, d := StepP(s).state, NextChain(s, c, StepProducer);
    forall i | c.b < i < |d.nodes| ensures t.heap[d.nodes[i]].data == t.pushed[|t.popped| + i - c.b - 1] {
      if i < |c.nodes| { assert t.heap[c.nodes[i]].data == s.heap[c.nodes[i]].data; }
    }
  }

  lemma LinkInv(s: State, c: Chain)
    requires Inv(s, c) && s.producer.PLink?
    ensures StepP(s).Next? && Inv(StepP(s).state, NextChain(s, c, StepProducer))
  {
    LinkShape(s, c);
    LinkContents(s, c);
    KeptConsumer(s, c, StepP(s).state, NextChain(s, c, StepProducer));
  }

  /** The consumer only depends on the two nodes from the barrier on. */
  lemma KeptConsumer(s: State, c: Chain, t: State, d: Chain)
    requires Shape(s, c) && ConsumerOk(s, c) && Shape(t, d)
    requires t.consumer == s.consumer && t.barrier == s.barrier
    requires c.b < c.l ==> d.b < d.l && d.nodes[d.b + 1] == c.nodes[c.b + 1]
    requires c.b < c.l ==> t.heap[d.nodes[d.b + 1]].data == s.heap[c.nodes[c.b + 1]].data
    ensures ConsumerOk(t, d)
  {
  }

  lemma PublishInv(s: State, c: Chain)
    requires Inv(s, c) && s.producer.PPublish?
    ensures StepP(s).Next? && Inv(StepP(s).state, NextChain(s, c, StepProducer))
  {
  }

  lemma UnlinkShape(s: State, c: Chain)
    requires Inv(s, c) && s.producer.PUnlink?
    ensures StepP(s).Next? && Shape(StepP(s).state, NextChain(s, c, StepProducer))
  {
    var d := NextChain(s, c, StepProducer);
    LinkedTail(s.heap, c.nodes);
    assert c.nodes == [c.nodes[0]] + d.nodes;
  }

  lemma UnlinkInv(s: State, c: Chain)
    requires Inv(s, c) && s.producer.PUnlink?
    ensures StepP(s).Next? && Inv(StepP(s).state, NextChain(s, c, StepProducer))
  {
    var t, d := StepP(s).state, NextChain(s, c, StepProducer);
    UnlinkShape(s, c);
    assert Contents(t, d) by {
      forall i | d.b < i < |d.nodes| ensures t.heap[d.nodes[i]].data == t.pushed[|t.popped| + i - d.b - 1] {
        assert d.nodes[i] == c.nodes[i + 1];
      }
    }
    KeptConsumer(s, c, t, d);
  }

  lemma DeleteInv(s: State, c: Chain)
    requires Inv(s, c) && s.producer.PDelete?
    ensures StepP(s).Next? && Inv(StepP(s).state, c)
  {
    var tmp := s.producer.tmp;
    LinkedWithout(s.heap, c.nodes, tmp);
    var t := StepP(s).state;
    assert Shape(t, c);
    assert forall i :: 0 <= i < |c.nodes| ==> t.heap[c.nodes[i]] == s.heap[c.nodes[i]];
    assert Contents(t, c);
    KeptConsumer(s, c, t, c);
  }

  lemma LoadTailInv(s: State, c: Chain)
    requires Inv(s, c) && (s.producer.PLoadTail? || s.producer.PLoadTailAgain?)
    ensures StepP(s).Next? && Inv(StepP(s).state, c)
  {
  }

  lemma ProducerStepInv(s: State, c: Chain)
    requires Inv(s, c)
    ensures !StepP(s).Fault?
    ensures StepP(s).Next? ==> Inv(StepP(s).state, NextChain(s, c, StepProducer))
  {
    match s.producer
    case PIdle =>
    case PAlloc(_) =>
    case PLink(_, _) => LinkInv(s, c);
    case PPublish(_) => PublishInv(s, c);
    case PUnlink => UnlinkInv(s, c);
    case PDelete(_) => DeleteInv(s, c);
    case PLoadNext(tail) => LoadNextInv(s, c);
    case PScan => ScanInv(s, c);
    case _ => LoadTailInv(s, c);
  }

  lemma LoadNextInv(s: State, c: Chain)
    requires Inv(s, c) && s.producer.PLoadNext?
    ensures StepP(s).Next? && Inv(StepP(s).state, c)
  {
    assert s.producer.tail == c.nodes[c.l];
  }

  lemma ScanInv(s: State, c: Chain)
    requires Inv(s, c) && s.producer.PScan?
    ensures StepP(s).Next? && Inv(StepP(s).state, c)
  {
  }

  lemma AdvanceInv(s: State, c: Chain)
    requires Inv(s, c) && s.consumer.CAdvance?
    ensures StepC(s).Next? && Inv(StepC(s).state, c.(b := c.b + 1))
  {
    var t, d := StepC(s).state, c.(b := c.b + 1);
    assert Shape(t, d);
    assert s.consumer.got == s.pushed[|s.popped|];
    assert t.popped <= t.pushed;
  }

  lemma ConsumerReadInv(s: State, c: Chain)
    requires Inv(s, c) && (s.consumer.CLoadNextForData? || s.consumer.CLoadData? || s.consumer.CLoadNext?)
    ensures StepC(s).Next? && Inv(StepC(s).state, c)
  {
    assert c.nodes[c.b] in s.heap && c.nodes[c.b + 1] in s.heap;
    var t := StepC(s).state;
    assert Shape(t, c);
    assert Contents(t, c);
  }

  lemma ConsumerLoadInv(s: State, c: Chain)
    requires Inv(s, c)
    requires s.consumer.CLoadBarrier? || s.consumer.CLoadBarrierForData? || s.consumer.CLoadBarrierForNext?
    ensures StepC(s).Next? && Inv(StepC(s).state, c)
  {
    var t := StepC(s).state;
    assert Shape(t, c);
    assert Contents(t, c);
  }

  lemma ConsumerStepInv(s: State, c: Chain)
    requires Inv(s, c)
    ensures !StepC(s).Fault?
    ensures StepC(s).Next? ==> Inv(StepC(s).state, NextChain(s, c, StepConsumer))
  {
    match s.consumer
    case CIdle =>
    case CAdvance(_, _) => AdvanceInv(s, c);
    case CCompare(_) => CompareInv(s, c);
    case CLoadNextForData(_) => ConsumerReadInv(s, c);
    case CLoadData(_) => ConsumerReadInv(s, c);
    case CLoadNext(_, _) => ConsumerReadInv(s, c);
    case _ => ConsumerLoadInv(s, c);
  }

  lemma CompareInv(s: State, c: Chain)
    requires Inv(s, c) && s.consumer.CCompare?
    ensures StepC(s).Next? && Inv(StepC(s).state, c)
  {
  }

  lemma StepInv(s: State, c: Chain, a: Action)
    requires Inv(s, c)
    ensures !Step(s, a).Fault?
    ensures Step(s, a).Next? ==> Inv(Step(s, a).state, NextChain(s, c, a))
  {
    match a
    case BeginPush(item) => if Step(s, a).Next? { BeginPushInv(s, c, item); }
    case Allocate(address) => if Step(s, a).Next? { AllocateInv(s, c, address); }
    case StepProducer => ProducerStepInv(s, c);
    case BeginPop => if Step(s, a).Next? { BeginPopInv(s, c); }
    case StepConsumer => ConsumerStepInv(s, c);
  }

  lemma BeginPushInv(s: State, c: Chain, item: Item)
    requires Inv(s, c) && s.producer == PIdle
    ensures Inv(s.(producer := PAlloc(item), pushed := s.pushed + [item]), c)
  {
  }

  lemma BeginPopInv(s: State, c: Chain)
    requires Inv(s, c) && s.consumer == CIdle
    ensures Inv(s.(consumer := CLoadBarrier), c)
  {
  }

  // ----- every run

  /** The chain at the end of a run. */
  ghost function RunChain(s: State, c: Chain, actions: seq<Action>): Chain
    decreases |actions|
  {
    if actions == [] then c
    else
      var before, a := actions[..|actions| - 1], actions[|actions| - 1];
      var d := RunChain(s, c, before);
      match Run(s, before)
      case Next(t) => if Step(t, a).Next? then NextChain(t, d, a) else d
      case _ => d
  }

  ghost function StartChain(separator: Ptr): Chain {
    Chain([separator], 0, 0)
  }

  // ----- refinement of a sequential queue

  /** What a step means to a user of the queue. */
  datatype Event = Silent | Pushed(item: Item) | Took(item: Item) | FoundEmpty

  /** `push` takes effect when it stores `last_node`, a successful `pop` when it stores
      `barrier_node`, an unsuccessful one when it reads `last_node`. */
  function EventOf(s: State, a: Action): Event {
    if a == StepProducer && s.producer.PPublish? && |s.pushed| > 0 then Pushed(s.pushed[|s.pushed| - 1])
    else if a == StepConsumer && s.consumer.CAdvance? then Took(s.consumer.got)
    else if a == StepConsumer && s.consumer.CCompare? && s.consumer.barrier == s.last then FoundEmpty
    else Silent
  }

  /** A sequential first-in first-out queue; `None` for a result it cannot give. */
  function QueueStep(q: seq<Item>, e: Event): Option<seq<Item>> {
    match e
    case Silent => Some(q)
    case Pushed(x) => Some(q + [x])
    case Took(x) => if q != [] && q[0] == x then Some(q[1..]) else None
    case FoundEmpty => if q == [] then Some(q) else None
  }

  function QueueRun(events: seq<Event>): Option<seq<Item>>
    decreases |events|
  {
    if events == [] then Some([])
    else
      match QueueRun(events[..|events| - 1])
      case Some(q) => QueueStep(q, events[|events| - 1])
      case None => None
  }

  /** The items published and not yet taken. */
  function Queued(s: State, c: Chain): seq<Item> {
    var from, to := |s.popped|, |s.popped| + c.l - c.b;
    if from <= to <= |s.pushed| then s.pushed[from..to] else []
  }

  /** They are the data of the published nodes behind the barrier. */
  lemma QueuedIsInNodes(s: State, c: Chain)
    requires Inv(s, c)
    ensures |Queued(s, c)| == c.l - c.b
    ensures forall i :: c.b < i <= c.l ==> s.heap[c.nodes[i]].data == Queued(s, c)[i - c.b - 1]
  {
  }

  /** Each step of either thread is a step of the sequential queue. */
  lemma StepRefinesQueue(s: State, c: Chain, a: Action)
    requires Inv(s, c) && Step(s, a).Next?
    ensures QueueStep(Queued(s, c), EventOf(s, a)) == Some(Queued(Step(s, a).state, NextChain(s, c, a)))
  {
    match EventOf(s, a)
    case Pushed(x) => PublishMeans(s, c);
    case Took(x) => AdvanceMeans(s, c);
    case FoundEmpty => CompareMeans(s, c); SilentMeans(s, c, a);
    case Silent => SilentMeans(s, c, a);
  }

  lemma PublishMeans(s: State, c: Chain)
    requires Inv(s, c) && s.producer.PPublish?
    ensures |s.pushed| > 0
    ensures Queued(StepP(s).state, NextChain(s, c, StepProducer)) == Queued(s, c) + [s.pushed[|s.pushed| - 1]]
  {
    var from, n := |s.popped|, |s.pushed|;
    assert n == from + c.l + 1 - c.b;
    assert s.pushed[from..n] == s.pushed[from..n - 1] + [s.pushed[n - 1]];
  }

  lemma AdvanceMeans(s: State, c: Chain)
    requires Inv(s, c) && s.consumer.CAdvance?
    ensures var q := Queued(s, c);
            q != [] && q[0] == s.consumer.got && Queued(StepC(s).state, NextChain(s, c, StepConsumer)) == q[1..]
  {
    assert s.consumer.got == s.pushed[|s.popped|];
    var from, to := |s.popped|, |s.popped| + c.l - c.b;
    assert s.pushed[from..to][1..] == s.pushed[from + 1..to];
  }

  lemma CompareMeans(s: State, c: Chain)
    requires Inv(s, c) && s.consumer.CCompare? && s.consumer.barrier == s.last
    ensures c.b == c.l
  {
    if c.b < c.l { BarrierBeforeLast(s, c); }
  }

  lemma SilentMeans(s: State, c: Chain, a: Action)
    requires Inv(s, c) && Step(s, a).Next? && (EventOf(s, a) == Silent || EventOf(s, a) == FoundEmpty)
    ensures Queued(Step(s, a).state, NextChain(s, c, a)) == Queued(s, c)
  {
    var t, d := Step(s, a).state, NextChain(s, c, a);
    assert t.popped == s.popped && s.pushed <= t.pushed && d.l - d.b == c.l - c.b;
    assert |s.popped| + c.l - c.b <= |s.pushed|;
  }

  /** The events of a run. */
  ghost function EventsOf(s: State, actions: seq<Action>): seq<Event>
    decreases |actions|
  {
    if actions == [] then []
    else
      var before, a := actions[..|actions| - 1], actions[|actions| - 1];
      EventsOf(s, before) +
        match Run(s, before)
        case Next(t) => if Step(t, a).Next? then [EventOf(t, a)] else []
        case _ => []
  }

  function Taken(events: seq<Event>): seq<Item>
    decreases |events|
  {
    if events == [] then []
    else
      var e := events[|events| - 1];
      Taken(events[..|events| - 1]) + if e.Took? then [e.item] else []
  }

  function Published(events: seq<Event>): seq<Item>
    decreases |events|
  {
    if events == [] then []
    else
      var e := events[|events| - 1];
      Published(events[..|events| - 1]) + if e.Pushed? then [e.item] else []
  }

  /** A run and its history so far fit together. */
  ghost predicate Explained(s: State, c: Chain, events: seq<Event>) {
    Inv(s, c) && QueueRun(events) == Some(Queued(s, c)) && Taken(events) == s.popped
  }

  lemma ExplainedStep(s: State, c: Chain, events: seq<Event>, a: Action)
    requires Explained(s, c, events) && Step(s, a).Next?
    ensures Explained(Step(s, a).state, NextChain(s, c, a), events + [EventOf(s, a)])
  {
    StepInv(s, c, a);
    StepRefinesQueue(s, c, a);
    StepPops(s, a);
    assert (events + [EventOf(s, a)])[..|events|] == events;
  }

  /** One more action at the end of a run. */
  lemma ExtendRun(s: State, c: Chain, actions: seq<Action>)
    requires actions != []
    ensures var before, a := actions[..|actions| - 1], actions[|actions| - 1];
      Run(s, before).Next? ==>
        var t, d := Run(s, before).state, RunChain(s, c, before);
        if Step(t, a).Next?
        then Run(s, actions) == Step(t, a) && RunChain(s, c, actions) == NextChain(t, d, a) &&
             EventsOf(s, actions) == EventsOf(s, before) + [EventOf(t, a)]
        else RunChain(s, c, actions) == d && EventsOf(s, actions) == EventsOf(s, before) &&
             (Step(t, a).Disabled? ==> Run(s, actions) == Next(t))
  {
  }

  /**
   Linearizability: in every interleaving the events, at the points above, are a legal history of the
   sequential queue that ends in the queue's contents, and the items popped are those taken.
   */
  lemma {:induction false} Linearizable(s: State, c: Chain, actions: seq<Action>)
    requires Explained(s, c, [])
    ensures Run(s, actions).Next?
    ensures Explained(Run(s, actions).state, RunChain(s, c, actions), EventsOf(s, actions))
    decreases |actions|
  {
    if actions != [] {
      var before, a := actions[..|actions| - 1], actions[|actions| - 1];
      Linearizable(s, c, before);
      ExtendRun(s, c, actions);
      var t, d := Run(s, before).state, RunChain(s, c, before);
      StepInv(t, d, a);
      if Step(t, a).Next? { ExplainedStep(t, d, EventsOf(s, before), a); }
    }
  }

  lemma InitialExplained(separator: Ptr, blank: Item)
    requires separator != NULL
    ensures Explained(Initial(separator, blank), StartChain(separator), [])
  {
    InitialInv(separator, blank);
  }

  /** No interleaving ever reads or deletes a node that is not allocated, and the invariant holds throughout. */
  lemma {:induction false} EveryRunSafe(separator: Ptr, blank: Item, actions: seq<Action>)
    requires separator != NULL
    ensures var r := Run(Initial(separator, blank), actions);
            r.Next? && Inv(r.state, RunChain(Initial(separator, blank), StartChain(separator), actions))
  {
    InitialExplained(separator, blank);
    Linearizable(Initial(separator, blank), StartChain(separator), actions);
  }

  lemma StepPops(s: State, a: Action)
    requires Step(s, a).Next?
    ensures Step(s, a).state.popped == s.popped + if EventOf(s, a).Took? then [EventOf(s, a).item] else []
  {
  }

  /** A legal history conserves items: what was published is what was taken and then what is queued. */
  lemma {:induction false} HistoryConserves(events: seq<Event>)
    requires QueueRun(events).Some?
    ensures Published(events) == Taken(events) + QueueRun(events).value
    decreases |events|
  {
    if events != [] {
      var before, e := events[..|events| - 1], events[|events| - 1];
      HistoryConserves(before);
      var q := QueueRun(before).value;
      if e.Took? {
        assert q == [e.item] + q[1..];
      }
    }
  }

  /** First in, first out: the items popped are a prefix of the items pushed, in every interleaving. */
  lemma {:induction false} PoppedIsPrefixOfPushed(separator: Ptr, blank: Item, actions: seq<Action>)
    requires separator != NULL
    ensures var s := Initial(separator, blank);
            var r, c := Run(s, actions), RunChain(s, StartChain(separator), actions);
            r.Next? && r.state.popped <= r.state.pushed &&
            r.state.popped + Queued(r.state, c) == Published(EventsOf(s, actions)) <= r.state.pushed
  {
    var s := Initial(separator, blank);
    InitialExplained(separator, blank);
    Linearizable(s, StartChain(separator), actions);
    HistoryConserves(EventsOf(s, actions));
    WindowIsPrefix(Run(s, actions).state, RunChain(s, StartChain(separator), actions));
  }

  lemma WindowIsPrefix(s: State, c: Chain)
    requires Inv(s, c)
    ensures s.popped <= s.pushed && s.popped + Queued(s, c) <= s.pushed
  {
    QueuedIsInNodes(s, c);
    assert s.popped + Queued(s, c) == s.pushed[..|s.popped| + c.l - c.b];
  }

  // ----- reclamation and data races

  /** Node the consumer is about to read. */
  function ConsumerReads(m: Consumer): Ptr {
    match m
    case CLoadNextForData(barrier) => barrier
    case CLoadData(next) => next
    case CLoadNext(barrier, _) => barrier
    case _ => NULL
  }

  /** A deleted node lies before the barrier: it is neither in the queue nor held by the consumer. */
  lemma FreedBehindBarrier(s: State, c: Chain, a: Action, p: Ptr)
    requires Inv(s, c) && Step(s, a).Next? && p in s.heap && p !in Step(s, a).state.heap
    ensures forall i :: c.b <= i < |c.nodes| ==> c.nodes[i] != p
    ensures p != ConsumerReads(s.consumer) && !(s.consumer.CAdvance? && s.consumer.next == p)
    ensures p != s.first && p != s.barrier && p != s.last
  {
    assert a == StepProducer && s.producer == PDelete(p);
  }

  /**
   The node fields are not atomic, but no two threads use one at the same time: when the producer is
   about to link or delete a node, the consumer is not about to read that node.
   */
  lemma NoDataRace(s: State, c: Chain)
    requires Inv(s, c) && ConsumerReads(s.consumer) != NULL
    ensures s.producer.PLink? && !s.consumer.CLoadData? ==> s.producer.tail != ConsumerReads(s.consumer)
    ensures s.producer.PDelete? ==> s.producer.tmp != ConsumerReads(s.consumer)
  {
    BarrierBeforeLast(s, c);
  }

  lemma BarrierBeforeLast(s: State, c: Chain)
    requires Inv(s, c) && c.b < c.l
    ensures c.nodes[c.b] != c.nodes[c.l]
  {
  }

  /** The destructor, run when no push or pop is in progress, frees every node exactly once. */
  method Destructor(s: State, ghost c: Chain) returns (heap: map<Ptr, Node>, freed: seq<Ptr>)
    requires Inv(s, c) && s.producer == PIdle && s.consumer == CIdle
    ensures heap == map[]
    ensures forall i, j :: 0 <= i < j < |freed| ==> freed[i] != freed[j]
    ensures forall p :: p in freed <==> p in s.heap
  {
    heap := s.heap;
    freed := [];
    var first := s.first;
    ghost var rest := c.nodes;
    while first != NULL
      invariant Linked(heap, rest) && |heap| == |rest|
      invariant first == if rest == [] then NULL else rest[0]
      invariant forall i, j :: 0 <= i < j < |freed| ==> freed[i] != freed[j]
      invariant forall p :: p in freed ==> p in s.heap && p !in heap
      invariant forall p :: p in s.heap ==> p in freed || p in heap
      invariant forall p :: p in heap ==> p in s.heap
      decreases |rest|
    {
      var node := first;
      first := heap[node].next;
      if |rest| > 1 { LinkedTail(heap, rest); }
      LinkedDrop(heap, rest);
      heap := heap - {node};
      freed := freed + [node];
      rest := rest[1..];
    }
  }

  lemma LinkedDrop(heap: map<Ptr, Node>, nodes: seq<Ptr>)
    requires Linked(heap, nodes) && nodes != []
    ensures Linked(heap - {nodes[0]}, nodes[1..]) && |heap - {nodes[0]}| == |heap| - 1
  {
    assert (heap - {nodes[0]}).Keys == heap.Keys - {nodes[0]};
    if |nodes| > 1 {
      LinkedTail(heap, nodes);
      LinkedWithout(heap, nodes[1..], nodes[0]);
    }
  }
}
