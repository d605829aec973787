/** The lock-free stack of yesod.old/cruft/yesod/stack.hpp as a transition system of any number of threads and stacks. */
module TaggedStack {

  /** Nodes are numbered from 1; 0 is the null pointer. */
  type Node = nat

  /** An atomic head: pointer and tag. */
  datatype Head = Head(ptr: Node, tag: nat)

  /** Where a thread is; each name is the operation it does next. */
  datatype Pc =
    | Idle
    | PushLoad(s: nat, top: Node, end: Node, tell: bool)
    | PushWrite(s: nat, top: Node, end: Node, tell: bool, seen: Head)
    | PushCas(s: nat, top: Node, end: Node, tell: bool, seen: Head)
    | PushTell(s: nat, v: Node)
    | PopLoad(s: nat)
    | PopRead(s: nat, seen: Head)
    | PopCas(s: nat, seen: Head, next: Node)
    | SpliceLoad(s: nat, from: nat)
    | SpliceCas(s: nat, from: nat, seen: Head)
    | SpliceWalk(s: nat, top: Node, end: Node)

  /** What an operation gave back: nothing yet, the node of a pop or null, or whether a push found its stack empty. */
  datatype Answer = NoAnswer | Gave(v: Node) | Told(empty: bool)

  /** Shared memory, the threads with the last answer each got, and the nodes that belong to clients at the moment. */
  datatype State = State(heads: seq<Head>, next: seq<Node>, pcs: seq<Pc>, out: seq<Answer>, owned: set<Node>)

  /** What a thread does in one step: start an operation, run on (a weak CAS may fail for no reason), or write to a node
    * of its client. */
  datatype Action =
    | BeginPush(s: nat, v: Node)
    | BeginPop(s: nat)
    | BeginSplice(s: nat, from: nat)
    | Run(spurious: bool)
    | Scribble(v: Node, x: Node)

  predicate IsNode(c: State, v: Node) { 0 < v < |c.next| }

  /** A client starts an operation on an idle thread, pushes and writes only nodes it owns. */
  predicate Enabled(c: State, t: nat, a: Action) {
    && t < |c.pcs| == |c.out|
    && match a {
         case BeginPush(s, v) => c.pcs[t].Idle? && s < |c.heads| && v in c.owned && IsNode(c, v)
         case BeginPop(s) => c.pcs[t].Idle? && s < |c.heads|
         case BeginSplice(s, from) => c.pcs[t].Idle? && s < |c.heads| && from < |c.heads|
         case Run(_) => !c.pcs[t].Idle? && Runnable(c, c.pcs[t])
         case Scribble(v, x) => v in c.owned && IsNode(c, v)
       }
  }

  /** The memory a running thread touches exists. */
  predicate Runnable(c: State, pc: Pc) {
    match pc {
      case Idle => true
      case PushLoad(s, _, _, _) => s < |c.heads|
      case PushWrite(s, _, end, _, _) => end < |c.next|
      case PushCas(s, _, _, _, _) => s < |c.heads|
      case PushTell(_, v) => v < |c.next|
      case PopLoad(s) => s < |c.heads|
      case PopRead(s, seen) => seen.ptr < |c.next|
      case PopCas(s, seen, _) => s < |c.heads|
      case SpliceLoad(s, from) => from < |c.heads|
      case SpliceCas(s, from, _) => from < |c.heads|
      case SpliceWalk(s, _, end) => end < |c.next|
    }
  }

  function Goto(c: State, t: nat, pc: Pc): State
    requires t < |c.pcs|
  {
    c.(pcs := c.pcs[t := pc])
  }

  /** The operation is over. */
  function Finish(c: State, t: nat, answer: Answer): State
    requires t < |c.pcs| == |c.out|
  {
    Goto(c, t, Idle).(out := c.out[t := answer])
  }

  /** The three compare-and-swaps that succeed: a batch goes in under the old tag, a node comes out, a stack comes out. */
  function LinkedIn(c: State, t: nat, s: nat, top: Node, tell: bool, tag: nat): State
    requires t < |c.pcs| && s < |c.heads|
  {
    Goto(c, t, if tell then PushTell(s, top) else Idle).(heads := c.heads[s := Head(top, tag)])
  }

  function Unlinked(c: State, t: nat, s: nat, seen: Head, next: Node): State
    requires t < |c.pcs| == |c.out| && s < |c.heads|
  {
    Finish(c, t, Gave(seen.ptr)).(heads := c.heads[s := Head(next, seen.tag + 1)], owned := c.owned + {seen.ptr})
  }

  function Detached(c: State, t: nat, s: nat, from: nat, seen: Head): State
    requires t < |c.pcs| && from < |c.heads|
  {
    Goto(c, t, SpliceWalk(s, seen.ptr, seen.ptr)).(heads := c.heads[from := Head(0, seen.tag + 1)])
  }

  /** After reading a head in pop: return null, or go on with the value read. */
  function PopWith(c: State, t: nat, s: nat, seen: Head): State
    requires t < |c.pcs| == |c.out|
  {
    if seen.ptr == 0 then Finish(c, t, Gave(0)) else Goto(c, t, PopRead(s, seen))
  }

  function SpliceWith(s: nat, from: nat, seen: Head): Pc { if seen.ptr == 0 then Idle else SpliceCas(s, from, seen) }

  /** One step. */
  function Step(c: State, t: nat, a: Action): State
    requires Enabled(c, t, a)
  {
    match a {
      case BeginPush(s, v) => Goto(c, t, PushLoad(s, v, v, true)).(owned := c.owned - {v})
      case BeginPop(s) => Goto(c, t, PopLoad(s))
      case BeginSplice(s, from) => Goto(c, t, SpliceLoad(s, from))
      case Scribble(v, x) => c.(next := c.next[v := x])
      case Run(spurious) =>
        match c.pcs[t] {
          case Idle => c
          case PushLoad(s, top, end, tell) => Goto(c, t, PushWrite(s, top, end, tell, c.heads[s]))
          case PushWrite(s, top, end, tell, seen) =>
            Goto(c, t, PushCas(s, top, end, tell, seen)).(next := c.next[end := seen.ptr])
          case PushCas(s, top, end, tell, seen) =>
            if c.heads[s] == seen && !spurious then LinkedIn(c, t, s, top, tell, seen.tag)
            else Goto(c, t, PushWrite(s, top, end, tell, c.heads[s]))
          case PushTell(_, v) => Finish(c, t, Told(c.next[v] == 0))
          case PopLoad(s) => PopWith(c, t, s, c.heads[s])
          case PopRead(s, seen) => Goto(c, t, PopCas(s, seen, c.next[seen.ptr]))
          case PopCas(s, seen, next) =>
            if c.heads[s] == seen && !spurious then Unlinked(c, t, s, seen, next)
            else PopWith(c, t, s, c.heads[s])
          case SpliceLoad(s, from) => Goto(c, t, SpliceWith(s, from, c.heads[from]))
          case SpliceCas(s, from, seen) =>
            if c.heads[from] == seen && !spurious then Detached(c, t, s, from, seen)
            else Goto(c, t, SpliceWith(s, from, c.heads[from]))
          case SpliceWalk(s, top, end) =>
            if c.next[end] != 0 then Goto(c, t, SpliceWalk(s, top, c.next[end]))
            else Goto(c, t, PushLoad(s, top, end, false))
        }
    }
  }

  /** Stacks empty, threads idle, every node with a client. */
  ghost predicate Initial(c: State) {
    && (forall s :: 0 <= s < |c.heads| ==> c.heads[s] == Head(0, 0))
    && (forall t :: 0 <= t < |c.pcs| ==> c.pcs[t].Idle?) && |c.out| == |c.pcs|
    && (forall v :: IsNode(c, v) ==> v in c.owned) && |c.next| > 0
  }

  // ---------------------------------------------------------------- the abstract stacks

  datatype Place = Client | InStack(s: nat) | Held(t: nat)

  /** What a thread still has to do: put the nodes it holds on top of s, and say whether s was empty when it did; say
    * that of the push of v, after `since` removals from s; pop from s; or move all of `from` to s. */
  datatype Request =
    | Nothing
    | Giving(s: nat, tell: bool)
    | Telling(s: nat, v: Node, empty: bool, since: nat)
    | Popping(s: nat)
    | Splicing(s: nat, from: nat)

  /** Plain sequences, top first, how often nodes were removed from each, the nodes each thread is moving, what each was
    * asked to do and what it answered last. */
  datatype Abstract = Abstract(
    stacks: seq<seq<Node>>, removed: seq<nat>, held: seq<seq<Node>>, asked: seq<Request>, out: seq<Answer>, place: seq<Place>)

  /** What a step of thread t is to the stacks. */
  datatype Event =
    | Silent
    | PushBegun(s: nat, v: Node)
    | PopBegun(s: nat)
    | SpliceBegun(s: nat, from: nat)
    | Prepended(s: nat)
    | Answered(empty: bool)
    | Popped(s: nat, v: Node)
    | FoundEmpty(s: nat)
    | TakenAll(from: nat)

  function Move(place: seq<Place>, nodes: seq<Node>, p: Place): (r: seq<Place>)
    ensures |r| == |place|
  {
    seq(|place|, i requires 0 <= i < |place| => if i in nodes then p else place[i])
  }

  /** The abstract state after thread t got or finished a request. */
  function Asked(a: Abstract, t: nat, q: Request): Abstract
    requires t < |a.asked|
  {
    a.(asked := a.asked[t := q])
  }

  function Done(a: Abstract, t: nat, answer: Answer): Abstract
    requires t < |a.asked| && t < |a.out|
  {
    Asked(a, t, Nothing).(out := a.out[t := answer])
  }

  /** A push still has to say whether it found its stack empty, a splice is over. */
  function AfterPush(a: Abstract, t: nat, s: nat): Request
    requires t < |a.held| && t < |a.asked| && a.asked[t].Giving? && a.held[t] != [] && s < |a.stacks| && s < |a.removed|
  {
    if a.asked[t].tell then Telling(s, a.held[t][0], a.stacks[s] == [], a.removed[s]) else Nothing
  }

  /** The nodes thread t holds go on top of s. */
  function Put(a: Abstract, t: nat, s: nat): Abstract
    requires t < |a.held| && t < |a.asked| && a.asked[t].Giving? && a.held[t] != [] && s < |a.stacks| && s < |a.removed|
  {
    Asked(a, t, AfterPush(a, t, s)).(
      stacks := a.stacks[s := a.held[t] + a.stacks[s]], held := a.held[t := []],
      place := Move(a.place, a.held[t], InStack(s)))
  }

  /** The top of s goes to the client of thread t. */
  function Took(a: Abstract, t: nat, s: nat): Abstract
    requires t < |a.asked| && t < |a.out| && s < |a.stacks| && s < |a.removed| && a.stacks[s] != []
  {
    Done(a, t, Gave(a.stacks[s][0])).(
      stacks := a.stacks[s := a.stacks[s][1..]], removed := a.removed[s := a.removed[s] + 1],
      place := Move(a.place, [a.stacks[s][0]], Client))
  }

  /** All of `from` goes to thread t, which is to bring it to the stack it was asked to. */
  function TookAll(a: Abstract, t: nat, from: nat): Abstract
    requires t < |a.held| && t < |a.asked| && a.asked[t].Splicing? && from < |a.stacks| && from < |a.removed|
  {
    Asked(a, t, Giving(a.asked[t].s, false)).(
      stacks := a.stacks[from := []], removed := a.removed[from := a.removed[from] + 1],
      held := a.held[t := a.stacks[from]], place := Move(a.place, a.stacks[from], Held(t)))
  }

  /** The last-in-first-out meaning of every step: what thread t is asked is what it does, on the stack it is asked for,
    * and its answer is the one the stacks give at that moment. */
  ghost predicate AbstractStep(a: Abstract, b: Abstract, t: nat, e: Event) {
    && t < |a.held| == |a.asked| == |a.out| && |a.removed| == |a.stacks|
    && match e {
         case Silent => b == a
         case PushBegun(s, v) =>
           && a.asked[t].Nothing? && s < |a.stacks| && v < |a.place| && a.place[v].Client?
           && b == Asked(a, t, Giving(s, true)).(held := a.held[t := [v]], place := Move(a.place, [v], Held(t)))
         case PopBegun(s) => a.asked[t].Nothing? && s < |a.stacks| && b == Asked(a, t, Popping(s))
         case SpliceBegun(s, from) =>
           a.asked[t].Nothing? && s < |a.stacks| && from < |a.stacks| && b == Asked(a, t, Splicing(s, from))
         case Prepended(s) =>
           && s < |a.stacks| && a.held[t] != [] && a.asked[t].Giving? && a.asked[t].s == s
           && b == Put(a, t, s)
         case Answered(empty) =>
           && a.asked[t].Telling? && a.asked[t].s < |a.stacks|
           && (a.asked[t].since == a.removed[a.asked[t].s] ==> empty == a.asked[t].empty)
           && b == Done(a, t, Told(empty))
         case Popped(s, v) =>
           && s < |a.stacks| && a.asked[t] == Popping(s) && a.stacks[s] != [] && v == a.stacks[s][0]
           && b == Took(a, t, s)
         case FoundEmpty(s) =>
           && s < |a.stacks| && a.stacks[s] == []
           && ((a.asked[t] == Popping(s) && b == Done(a, t, Gave(0)))
               || (a.asked[t].Splicing? && a.asked[t].from == s && b == Asked(a, t, Nothing)))
         case TakenAll(from) =>
           && from < |a.stacks| && a.stacks[from] != [] && a.asked[t].Splicing? && a.asked[t].from == from
           && b == TookAll(a, t, from)
       }
  }

  // ---------------------------------------------------------------- the invariant

  ghost predicate Sound(next: seq<Node>, l: seq<Node>) {
    && (forall i :: 0 <= i < |l| ==> 0 < l[i] < |next|)
    && (forall i, j :: 0 <= i < j < |l| ==> l[i] != l[j])
  }

  ghost predicate Linked(next: seq<Node>, l: seq<Node>) {
    Sound(next, l) && forall i {:trigger l[i]} :: 0 <= i < |l| - 1 ==> next[l[i]] == l[i + 1]
  }

  /** Following `next` from p spells l and ends with null. */
  ghost predicate Chain(next: seq<Node>, p: Node, l: seq<Node>) {
    Linked(next, l) && p == (if l == [] then 0 else l[0]) && (l != [] ==> next[l[|l| - 1]] == 0)
  }

  /** A batch being linked in: its last node's link is not yet meaningful. */
  ghost predicate Batch(next: seq<Node>, l: seq<Node>, top: Node, end: Node) {
    Linked(next, l) && l != [] && top == l[0] && end == l[|l| - 1]
  }

  ghost predicate Placed(place: seq<Place>, l: seq<Node>, p: Place) {
    forall v {:trigger v in l} :: v in l ==> v < |place| && place[v] == p
  }

  /** The head leads through the stack, and its tag counts the removals. */
  ghost predicate StackOk(c: State, a: Abstract, s: nat) {
    && s < |c.heads| == |a.stacks| == |a.removed| && c.heads[s].tag == a.removed[s]
    && Chain(c.next, c.heads[s].ptr, a.stacks[s]) && Placed(a.place, a.stacks[s], InStack(s))
  }

  /** A head read earlier: as long as its tag is current, its node is still in the stack. */
  ghost predicate Remembered(c: State, a: Abstract, s: nat, seen: Head) {
    && s < |c.heads| == |a.stacks| && IsNode(c, seen.ptr) && seen.tag <= c.heads[s].tag
    && (seen.tag == c.heads[s].tag ==> seen.ptr in a.stacks[s])
  }

  /** Where a thread is fits what it was asked. */
  ghost predicate PcOk(c: State, a: Abstract, pc: Pc, held: seq<Node>, asked: Request) {
    match pc {
      case Idle => held == [] && asked == Nothing
      case PushLoad(s, top, end, tell) => Bringing(c, s, top, end, tell, held, asked)
      case PushWrite(s, top, end, tell, seen) => Bringing(c, s, top, end, tell, held, asked)
      case PushCas(s, top, end, tell, seen) => Bringing(c, s, top, end, tell, held, asked) && c.next[end] == seen.ptr
      case PushTell(s, v) =>
        held == [] && asked.Telling? && asked.s == s && asked.v == v && StillOnTop(c, a, s, v, asked.empty, asked.since)
      case PopLoad(s) => held == [] && asked == Popping(s) && s < |c.heads|
      case PopRead(s, seen) => held == [] && asked == Popping(s) && Remembered(c, a, s, seen)
      case PopCas(s, seen, next) =>
        && held == [] && asked == Popping(s) && Remembered(c, a, s, seen)
        && (seen.tag == c.heads[s].tag ==> c.next[seen.ptr] == next)
      case SpliceLoad(s, from) => held == [] && asked == Splicing(s, from) && s < |c.heads| && from < |c.heads|
      case SpliceCas(s, from, seen) =>
        held == [] && asked == Splicing(s, from) && s < |c.heads| && from < |c.heads| && seen.ptr != 0
      case SpliceWalk(s, top, end) =>
        asked == Giving(s, false) && s < |c.heads| && held != [] && Chain(c.next, top, held) && end in held
    }
  }

  ghost predicate Bringing(c: State, s: nat, top: Node, end: Node, tell: bool, held: seq<Node>, asked: Request) {
    asked == Giving(s, tell) && s < |c.heads| && Batch(c.next, held, top, end) && (tell ==> top == end)
  }

  /** As long as nothing was removed from s since, v is still linked to what it was pushed upon. */
  ghost predicate StillOnTop(c: State, a: Abstract, s: nat, v: Node, empty: bool, since: nat) {
    && s < |c.heads| == |a.stacks| && IsNode(c, v) && since <= c.heads[s].tag
    && (since == c.heads[s].tag ==> v in a.stacks[s] && (c.next[v] == 0 <==> empty))
  }

  ghost predicate ThreadOk(c: State, a: Abstract, t: nat) {
    && t < |c.pcs| == |a.held| == |a.asked| && PcOk(c, a, c.pcs[t], a.held[t], a.asked[t])
    && Sound(c.next, a.held[t]) && Placed(a.place, a.held[t], Held(t))
  }

  /** The recorded place of a node is where it is. */
  ghost predicate PlaceOk(c: State, a: Abstract, v: Node) {
    IsNode(c, v) && v < |a.place| && (v in c.owned <==> a.place[v].Client?)
    && match a.place[v] {
         case Client => true
         case InStack(s) => s < |a.stacks| && v in a.stacks[s]
         case Held(t) => t < |a.held| && v in a.held[t]
       }
  }

  predicate Fits(c: State, a: Abstract) {
    && |a.stacks| == |a.removed| == |c.heads| && |a.held| == |a.asked| == |c.pcs| == |c.out| && a.out == c.out
    && |a.place| == |c.next| > 0
  }

  ghost predicate Inv(c: State, a: Abstract) {
    && Fits(c, a)
    && (forall s {:trigger StackOk(c, a, s)} :: 0 <= s < |c.heads| ==> StackOk(c, a, s))
    && (forall t {:trigger ThreadOk(c, a, t)} :: 0 <= t < |c.pcs| ==> ThreadOk(c, a, t))
    && (forall v {:trigger PlaceOk(c, a, v)} :: IsNode(c, v) ==> PlaceOk(c, a, v))
  }

  function InitialAbstract(c: State): Abstract {
    Abstract(
      seq(|c.heads|, _ => []), seq(|c.heads|, _ => 0), seq(|c.pcs|, _ => []), seq(|c.pcs|, _ => Nothing), c.out,
      seq(|c.next|, _ => Client))
  }

  lemma InitialInv(c: State)
    requires Initial(c)
    ensures Inv(c, InitialAbstract(c))
  {
    var a := InitialAbstract(c);
    forall s | 0 <= s < |c.heads| ensures StackOk(c, a, s) { assert a.stacks[s] == []; }
    forall t | 0 <= t < |c.pcs| ensures ThreadOk(c, a, t) { assert a.held[t] == [] && c.pcs[t].Idle?; }
  }

  /** Every step a running thread takes touches existing memory. */
  lemma NeverStuck(c: State, a: Abstract, t: nat, spurious: bool)
    requires Inv(c, a) && t < |c.pcs| && !c.pcs[t].Idle?
    ensures Enabled(c, t, Run(spurious))
  {
    assert ThreadOk(c, a, t);
  }

  // ---------------------------------------------------------------- what the other threads do not notice

  ghost predicate StillThere(c: State, a: Abstract, d: State, b: Abstract, s: nat) {
    && s < |c.heads| == |d.heads| == |a.stacks| == |b.stacks| && c.heads[s].tag <= d.heads[s].tag
    && (c.heads[s].tag == d.heads[s].tag ==> forall v {:trigger v in b.stacks[s]} :: v in a.stacks[s] ==> v in b.stacks[s])
  }

  /** Between (c, a) and (d, b) nothing changes that a thread other than t relies on: its own batch, tags that only grow,
    * and, under an unchanged tag, stacks that keep their nodes and the links of these. */
  ghost predicate Unnoticed(c: State, a: Abstract, d: State, b: Abstract, t: nat) {
    && |d.heads| == |c.heads| == |a.stacks| == |b.stacks| && |d.pcs| == |c.pcs| == |a.held| == |b.held| == |a.asked| == |b.asked|
    && |d.next| == |c.next| == |a.place| == |b.place|
    && (forall u {:trigger d.pcs[u]} :: 0 <= u < |c.pcs| && u != t ==>
          d.pcs[u] == c.pcs[u] && b.held[u] == a.held[u] && b.asked[u] == a.asked[u])
    && (forall s {:trigger StillThere(c, a, d, b, s)} :: 0 <= s < |c.heads| ==> StillThere(c, a, d, b, s))
    && (forall v {:trigger d.next[v]} :: 0 < v < |c.next| && d.next[v] != c.next[v] ==> a.place[v] == Client || a.place[v] == Held(t))
    && (forall v {:trigger b.place[v]} :: 0 <= v < |a.place| && a.place[v].Held? && a.place[v].t != t ==> b.place[v] == a.place[v])
  }

  lemma LinksKept(next: seq<Node>, next': seq<Node>, l: seq<Node>)
    requires Linked(next, l) && |next'| == |next| && forall v :: v in l ==> 0 < v < |next| && next'[v] == next[v]
    ensures Linked(next', l)
  {
  }

  lemma RememberedKept(c: State, a: Abstract, d: State, b: Abstract, t: nat, s: nat, seen: Head)
    requires Inv(c, a) && Unnoticed(c, a, d, b, t) && Remembered(c, a, s, seen)
    ensures s < |c.heads| == |d.heads| && seen.ptr < |c.next| == |d.next| && Remembered(d, b, s, seen)
    ensures seen.tag == d.heads[s].tag ==> seen.tag == c.heads[s].tag && d.next[seen.ptr] == c.next[seen.ptr]
  {
    assert StillThere(c, a, d, b, s);
    assert StackOk(c, a, s);
  }

  lemma StillOnTopKept(c: State, a: Abstract, d: State, b: Abstract, t: nat, s: nat, v: Node, empty: bool, since: nat)
    requires Inv(c, a) && Unnoticed(c, a, d, b, t) && StillOnTop(c, a, s, v, empty, since)
    ensures StillOnTop(d, b, s, v, empty, since)
  {
    assert StillThere(c, a, d, b, s);
    assert StackOk(c, a, s);
  }

  /** What a thread relies on that looks at its own batch only. */
  lemma HeldKept(c: State, a: Abstract, d: State, b: Abstract, pc: Pc, held: seq<Node>, asked: Request)
    requires PcOk(c, a, pc, held, asked) && !pc.PopRead? && !pc.PopCas? && !pc.PushTell?
    requires |d.heads| == |c.heads| && |d.next| == |c.next| && forall v :: v in held ==> 0 < v < |c.next| && d.next[v] == c.next[v]
    ensures PcOk(d, b, pc, held, asked)
  {
  }

  lemma OtherThreadKept(c: State, a: Abstract, d: State, b: Abstract, t: nat, u: nat)
    requires Inv(c, a) && Unnoticed(c, a, d, b, t) && u != t && u < |c.pcs|
    ensures ThreadOk(d, b, u)
  {
    hide Remembered, StillOnTop, StillThere, StackOk, PlaceOk, Bringing, Chain, Linked;
    assert ThreadOk(c, a, u);
    assert d.pcs[u] == c.pcs[u];
    var l := a.held[u];
    forall v | v in l ensures b.place[v] == Held(u) && d.next[v] == c.next[v] { assert a.place[v] == Held(u); }
    match c.pcs[u] {
      case PopRead(s, seen) => RememberedKept(c, a, d, b, t, s, seen);
      case PopCas(s, seen, next) => RememberedKept(c, a, d, b, t, s, seen);
      case PushTell(s, v) => StillOnTopKept(c, a, d, b, t, s, v, a.asked[u].empty, a.asked[u].since);
      case _ => HeldKept(c, a, d, b, c.pcs[u], l, a.asked[u]);
    }
  }

  // ---------------------------------------------------------------- the steps

  /** A step that moves only the thread on, its request and its answer. */
  lemma OnlyThread(c: State, a: Abstract, t: nat, d: State, b: Abstract)
    requires Inv(c, a) && t < |c.pcs| == |d.pcs| && |b.asked| == |a.asked| && b.out == d.out && |d.out| == |c.out|
    requires d == c.(pcs := d.pcs, out := d.out) && b == a.(asked := b.asked, out := b.out)
    requires forall u :: 0 <= u < |c.pcs| && u != t ==> d.pcs[u] == c.pcs[u] && b.asked[u] == a.asked[u]
    requires PcOk(c, a, d.pcs[t], a.held[t], b.asked[t])
    ensures Inv(d, b)
  {
    forall s | 0 <= s < |d.heads| ensures StackOk(d, b, s) { assert StackOk(c, a, s); }
    forall u | 0 <= u < |d.pcs| ensures ThreadOk(d, b, u) {
      assert ThreadOk(c, a, u);
      PcDependsOn(c, d, a, b, d.pcs[u], a.held[u], b.asked[u]);
    }
    forall v | IsNode(d, v) ensures PlaceOk(d, b, v) { assert PlaceOk(c, a, v); }
  }

  lemma OnlyPc(c: State, a: Abstract, t: nat, pc: Pc)
    requires Inv(c, a) && t < |c.pcs| && PcOk(c, a, pc, a.held[t], a.asked[t])
    ensures Inv(Goto(c, t, pc), a)
  {
    OnlyThread(c, a, t, Goto(c, t, pc), a);
  }

  lemma PcDependsOn(c: State, d: State, a: Abstract, b: Abstract, pc: Pc, held: seq<Node>, asked: Request)
    requires PcOk(c, a, pc, held, asked) && d.heads == c.heads && d.next == c.next && b.stacks == a.stacks
    ensures PcOk(d, b, pc, held, asked)
  {
  }

  /** A step that writes one link outside every stack. */
  lemma OnlyNext(c: State, a: Abstract, d: State, t: nat, w: Node, x: Node)
    requires Inv(c, a) && IsNode(c, w) && (a.place[w].Client? || a.place[w] == Held(t))
    requires d.heads == c.heads && d.owned == c.owned && d.out == c.out && d.next == c.next[w := x] && |d.pcs| == |c.pcs|
    requires forall u :: 0 <= u < |c.pcs| && u != t ==> d.pcs[u] == c.pcs[u]
    requires t < |c.pcs| ==> ThreadOk(d, a, t)
    ensures Inv(d, a)
  {
    forall s | 0 <= s < |d.heads| ensures StackOk(d, a, s) {
      assert StackOk(c, a, s);
      LinksKept(c.next, d.next, a.stacks[s]);
    }
    assert Unnoticed(c, a, d, a, t);
    forall u | 0 <= u < |d.pcs| ensures ThreadOk(d, a, u) { if u != t { OtherThreadKept(c, a, d, a, t, u); } }
    forall v | IsNode(d, v) ensures PlaceOk(d, a, v) { assert PlaceOk(c, a, v); }
  }

  lemma WriteEnd(c: State, a: Abstract, t: nat, s: nat, top: Node, end: Node, tell: bool, seen: Head)
    requires Inv(c, a) && t < |c.pcs| && c.pcs[t] == PushWrite(s, top, end, tell, seen)
    ensures end < |c.next| && Inv(Goto(c, t, PushCas(s, top, end, tell, seen)).(next := c.next[end := seen.ptr]), a)
  {
    assert ThreadOk(c, a, t);
    var l := a.held[t];
    assert end in l && a.place[end] == Held(t);
    var d := Goto(c, t, PushCas(s, top, end, tell, seen)).(next := c.next[end := seen.ptr]);
    assert Linked(d.next, l);
    OnlyNext(c, a, d, t, end, seen.ptr);
  }

  lemma ScribbleKeeps(c: State, a: Abstract, v: Node, x: Node)
    requires Inv(c, a) && IsNode(c, v) && v in c.owned
    ensures Inv(c.(next := c.next[v := x]), a)
  {
    assert PlaceOk(c, a, v);
    OnlyNext(c, a, c.(next := c.next[v := x]), |c.pcs|, v, x);
  }

  /** Everything but the stacks and batches a step names stays where it is. */
  lemma MoveAt(place: seq<Place>, nodes: seq<Node>, p: Place, v: Node)
    requires v < |place|
    ensures Move(place, nodes, p)[v] == if v in nodes then p else place[v]
  {
  }

  lemma BeginPushRefines(c: State, a: Abstract, t: nat, s: nat, v: Node) returns (b: Abstract)
    requires Inv(c, a) && Enabled(c, t, BeginPush(s, v))
    ensures Inv(Step(c, t, BeginPush(s, v)), b) && AbstractStep(a, b, t, PushBegun(s, v))
  {
    var d := Step(c, t, BeginPush(s, v));
    b := Asked(a, t, Giving(s, true)).(held := a.held[t := [v]], place := Move(a.place, [v], Held(t)));
    assert PlaceOk(c, a, v) && ThreadOk(c, a, t);
    forall s' | 0 <= s' < |d.heads| ensures StackOk(d, b, s') { assert StackOk(c, a, s'); }
    assert Unnoticed(c, a, d, b, t);
    forall u | 0 <= u < |d.pcs| ensures ThreadOk(d, b, u) { if u != t { OtherThreadKept(c, a, d, b, t, u); } }
    forall w | IsNode(d, w) ensures PlaceOk(d, b, w) {
      assert PlaceOk(c, a, w);
      MoveAt(a.place, [v], Held(t), w);
    }
  }

  lemma ChainJoin(next: seq<Node>, l: seq<Node>, top: Node, end: Node, p: Node, m: seq<Node>)
    requires Batch(next, l, top, end) && next[end] == p && Chain(next, p, m) && forall v :: v in l ==> v !in m
    ensures Chain(next, top, l + m)
  {
    var k := l + m;
    forall i, j | 0 <= i < j < |k| ensures k[i] != k[j] {
      if i < |l| <= j { assert k[i] in l && k[j] in m; }
    }
    forall i | 0 <= i < |k| - 1 ensures next[k[i]] == k[i + 1] {
      if i >= |l| { assert next[m[i - |l|]] == m[i - |l| + 1]; }
    }
  }

  lemma ChainRest(next: seq<Node>, p: Node, l: seq<Node>)
    requires Chain(next, p, l) && p != 0
    ensures l != [] && l[0] == p && Chain(next, next[p], l[1..]) && p !in l[1..]
  {
    var m := l[1..];
    forall i | 0 <= i < |m| - 1 ensures next[m[i]] == m[i + 1] { assert next[l[i + 1]] == l[i + 2]; }
  }

  lemma Assembled(d: State, b: Abstract)
    requires Fits(d, b)
    requires forall s {:trigger StackOk(d, b, s)} :: 0 <= s < |d.heads| ==> StackOk(d, b, s)
    requires forall t {:trigger ThreadOk(d, b, t)} :: 0 <= t < |d.pcs| ==> ThreadOk(d, b, t)
    requires forall v {:trigger PlaceOk(d, b, v)} :: IsNode(d, v) ==> PlaceOk(d, b, v)
    ensures Inv(d, b)
  {
  }

  /** The threads after a step of t that the others do not notice. */
  lemma ThreadsKept(c: State, a: Abstract, d: State, b: Abstract, t: nat)
    requires Inv(c, a) && Unnoticed(c, a, d, b, t) && ThreadOk(d, b, t)
    ensures forall u {:trigger ThreadOk(d, b, u)} :: 0 <= u < |d.pcs| ==> ThreadOk(d, b, u)
  {
    forall u | 0 <= u < |d.pcs| ensures ThreadOk(d, b, u) {
      if u != t {
        hide ThreadOk, Unnoticed, Inv;
        OtherThreadKept(c, a, d, b, t, u);
      }
    }
  }

  lemma PutStacks(c: State, a: Abstract, t: nat, s: nat, top: Node, end: Node, tell: bool, seen: Head, s': nat)
    requires Inv(c, a) && t < |c.pcs| && c.pcs[t] == PushCas(s, top, end, tell, seen) && s < |c.heads| && c.heads[s] == seen
    requires s' < |c.heads| && a.asked[t].Giving? && a.held[t] != []
    ensures StackOk(LinkedIn(c, t, s, top, tell, seen.tag), Put(a, t, s), s')
  {
    var d, b, l := LinkedIn(c, t, s, top, tell, seen.tag), Put(a, t, s), a.held[t];
    assert ThreadOk(c, a, t) && StackOk(c, a, s) && StackOk(c, a, s');
    if s' == s {
      forall v | v in l ensures v !in a.stacks[s] { assert a.place[v] == Held(t); }
      ChainJoin(c.next, l, top, end, seen.ptr, a.stacks[s]);
    }
    forall v | v in b.stacks[s'] ensures v < |b.place| && b.place[v] == InStack(s') { assert v in l || v in a.stacks[s']; }
  }

  lemma PutPlaces(c: State, a: Abstract, t: nat, s: nat, top: Node, tell: bool, tag: nat, w: Node)
    requires Inv(c, a) && t < |c.pcs| && s < |c.heads| && a.asked[t].Giving? && a.held[t] != [] && IsNode(c, w)
    ensures PlaceOk(LinkedIn(c, t, s, top, tell, tag), Put(a, t, s), w)
  {
    assert PlaceOk(c, a, w) && ThreadOk(c, a, t) && StackOk(c, a, s);
    MoveAt(a.place, a.held[t], InStack(s), w);
  }

  lemma PutStep(c: State, a: Abstract, t: nat, s: nat, top: Node, end: Node, tell: bool, seen: Head)
    requires Inv(c, a) && t < |c.pcs| && c.pcs[t] == PushCas(s, top, end, tell, seen) && s < |c.heads| && c.heads[s] == seen
    ensures Fits(c, a) && a.asked[t].Giving? && a.held[t] != []
    ensures Fits(LinkedIn(c, t, s, top, tell, seen.tag), Put(a, t, s)) && AbstractStep(a, Put(a, t, s), t, Prepended(s))
  {
    assert ThreadOk(c, a, t);
  }

  /** A successful push puts the thread's batch on top of the stack. */
  lemma PutRefines(c: State, a: Abstract, t: nat, s: nat, top: Node, end: Node, tell: bool, seen: Head) returns (b: Abstract)
    requires Inv(c, a) && t < |c.pcs| && c.pcs[t] == PushCas(s, top, end, tell, seen) && s < |c.heads| && c.heads[s] == seen
    ensures Inv(LinkedIn(c, t, s, top, tell, seen.tag), b) && AbstractStep(a, b, t, Prepended(s))
  {
    hide Inv, PlaceOk, StackOk, ThreadOk, Unnoticed, AbstractStep;
    PutStep(c, a, t, s, top, end, tell, seen);
    var d := LinkedIn(c, t, s, top, tell, seen.tag);
    b := Put(a, t, s);
    forall s' | 0 <= s' < |d.heads| ensures StackOk(d, b, s') { PutStacks(c, a, t, s, top, end, tell, seen, s'); }
    forall w | IsNode(d, w) ensures PlaceOk(d, b, w) { PutPlaces(c, a, t, s, top, tell, seen.tag, w); }
    PutUnnoticed(c, a, t, s, top, tell, seen.tag);
    PutThread(c, a, t, s, top, end, tell, seen);
    ThreadsKept(c, a, d, b, t);
    Assembled(d, b);
  }

  lemma PutThread(c: State, a: Abstract, t: nat, s: nat, top: Node, end: Node, tell: bool, seen: Head)
    requires Inv(c, a) && t < |c.pcs| && c.pcs[t] == PushCas(s, top, end, tell, seen) && s < |c.heads| && c.heads[s] == seen
    requires a.asked[t].Giving? && a.held[t] != []
    ensures ThreadOk(LinkedIn(c, t, s, top, tell, seen.tag), Put(a, t, s), t)
  {
    assert ThreadOk(c, a, t) && StackOk(c, a, s);
    var b := Put(a, t, s);
    assert top == b.stacks[s][0];
  }

  lemma PutUnnoticed(c: State, a: Abstract, t: nat, s: nat, top: Node, tell: bool, tag: nat)
    requires Inv(c, a) && t < |c.pcs| && s < |c.heads| && a.asked[t].Giving? && a.held[t] != [] && c.heads[s].tag == tag
    ensures Unnoticed(c, a, LinkedIn(c, t, s, top, tell, tag), Put(a, t, s), t)
  {
    assert ThreadOk(c, a, t);
  }

  lemma TookStep(c: State, a: Abstract, t: nat, s: nat, seen: Head, next: Node)
    requires Inv(c, a) && t < |c.pcs| == |c.out| && c.pcs[t] == PopCas(s, seen, next) && s < |c.heads| && c.heads[s] == seen
    ensures Fits(c, a) && a.stacks[s] != [] && IsNode(c, seen.ptr) && next == c.next[seen.ptr]
    ensures var d, b := Unlinked(c, t, s, seen, next), Took(a, t, s);
      Fits(d, b) && AbstractStep(a, b, t, Popped(s, seen.ptr)) && ThreadOk(d, b, t)
  {
    assert ThreadOk(c, a, t) && StackOk(c, a, s);
    ChainRest(c.next, seen.ptr, a.stacks[s]);
  }

  /** A successful pop removes the top node, and the head it installs is the current successor of that node. */
  lemma PopRefines(c: State, a: Abstract, t: nat, s: nat, seen: Head, next: Node) returns (b: Abstract)
    requires Inv(c, a) && t < |c.pcs| == |c.out| && c.pcs[t] == PopCas(s, seen, next) && s < |c.heads| && c.heads[s] == seen
    ensures Inv(Unlinked(c, t, s, seen, next), b) && AbstractStep(a, b, t, Popped(s, seen.ptr))
    ensures IsNode(c, seen.ptr) && next == c.next[seen.ptr]
  {
    hide Inv, PlaceOk, StackOk, ThreadOk, Unnoticed, AbstractStep;
    TookStep(c, a, t, s, seen, next);
    var d := Unlinked(c, t, s, seen, next);
    b := Took(a, t, s);
    forall s' | 0 <= s' < |d.heads| ensures StackOk(d, b, s') { TookStacks(c, a, t, s, seen, next, s'); }
    forall w | IsNode(d, w) ensures PlaceOk(d, b, w) { TookPlaces(c, a, t, s, seen, next, w); }
    TookUnnoticed(c, a, t, s, seen, next);
    ThreadsKept(c, a, d, b, t);
    Assembled(d, b);
  }

  lemma TookStacks(c: State, a: Abstract, t: nat, s: nat, seen: Head, next: Node, s': nat)
    requires Inv(c, a) && t < |c.pcs| == |c.out| && s < |c.heads| && c.heads[s] == seen && a.stacks[s] != []
    requires 0 < seen.ptr < |c.next| && next == c.next[seen.ptr] && s' < |c.heads|
    ensures StackOk(Unlinked(c, t, s, seen, next), Took(a, t, s), s')
  {
    var d, b, v := Unlinked(c, t, s, seen, next), Took(a, t, s), seen.ptr;
    assert StackOk(c, a, s) && StackOk(c, a, s');
    ChainRest(c.next, v, a.stacks[s]);
    assert v in a.stacks[s] && a.place[v] == InStack(s);
    forall w | w in b.stacks[s'] ensures w < |b.place| && b.place[w] == InStack(s') { assert w in a.stacks[s'] && w != v; }
  }

  lemma TookPlaces(c: State, a: Abstract, t: nat, s: nat, seen: Head, next: Node, w: Node)
    requires Inv(c, a) && t < |c.pcs| == |c.out| && s < |c.heads| && c.heads[s] == seen && a.stacks[s] != [] && IsNode(c, w)
    ensures PlaceOk(Unlinked(c, t, s, seen, next), Took(a, t, s), w)
  {
    assert PlaceOk(c, a, w) && StackOk(c, a, s);
    MoveAt(a.place, [a.stacks[s][0]], Client, w);
    if w in a.stacks[s] && w != seen.ptr { assert w in a.stacks[s][1..]; }
  }

  lemma TookUnnoticed(c: State, a: Abstract, t: nat, s: nat, seen: Head, next: Node)
    requires Inv(c, a) && t < |c.pcs| == |c.out| && s < |c.heads| && c.heads[s] == seen && a.stacks[s] != []
    ensures Unnoticed(c, a, Unlinked(c, t, s, seen, next), Took(a, t, s), t)
  {
    assert StackOk(c, a, s);
    assert a.stacks[s][0] in a.stacks[s];
  }

  lemma TakeAllStep(c: State, a: Abstract, t: nat, s: nat, from: nat, seen: Head)
    requires Inv(c, a) && t < |c.pcs| && c.pcs[t] == SpliceCas(s, from, seen) && from < |c.heads| && c.heads[from] == seen
    ensures Fits(c, a) && a.asked[t].Splicing? && a.held[t] == []
    ensures Fits(Detached(c, t, s, from, seen), TookAll(a, t, from)) && AbstractStep(a, TookAll(a, t, from), t, TakenAll(from))
  {
    assert ThreadOk(c, a, t) && StackOk(c, a, from);
  }

  /** A successful take-all moves the whole stack to the thread. */
  lemma TakeAllRefines(c: State, a: Abstract, t: nat, s: nat, from: nat, seen: Head) returns (b: Abstract)
    requires Inv(c, a) && t < |c.pcs| && c.pcs[t] == SpliceCas(s, from, seen) && from < |c.heads| && c.heads[from] == seen
    ensures Inv(Detached(c, t, s, from, seen), b) && AbstractStep(a, b, t, TakenAll(from))
  {
    hide Inv, PlaceOk, StackOk, ThreadOk, Unnoticed, AbstractStep;
    TakeAllStep(c, a, t, s, from, seen);
    var d := Detached(c, t, s, from, seen);
    b := TookAll(a, t, from);
    forall s' | 0 <= s' < |d.heads| ensures StackOk(d, b, s') { TookAllStacks(c, a, t, s, from, seen, s'); }
    forall w | IsNode(d, w) ensures PlaceOk(d, b, w) { TookAllPlaces(c, a, t, s, from, seen, w); }
    TookAllUnnoticed(c, a, t, s, from, seen);
    TookAllThread(c, a, t, s, from, seen);
    ThreadsKept(c, a, d, b, t);
    Assembled(d, b);
  }

  lemma TookAllStacks(c: State, a: Abstract, t: nat, s: nat, from: nat, seen: Head, s': nat)
    requires Inv(c, a) && t < |c.pcs| && from < |c.heads| && c.heads[from] == seen && a.asked[t].Splicing? && s' < |c.heads|
    ensures StackOk(Detached(c, t, s, from, seen), TookAll(a, t, from), s')
  {
    var b := TookAll(a, t, from);
    assert StackOk(c, a, from) && StackOk(c, a, s');
    forall w | w in b.stacks[s'] ensures w < |b.place| && b.place[w] == InStack(s') {
      assert w in a.stacks[s'] && w !in a.stacks[from];
    }
  }

  lemma TookAllPlaces(c: State, a: Abstract, t: nat, s: nat, from: nat, seen: Head, w: Node)
    requires Inv(c, a) && t < |c.pcs| && from < |c.heads| && a.asked[t].Splicing? && a.held[t] == [] && IsNode(c, w)
    ensures PlaceOk(Detached(c, t, s, from, seen), TookAll(a, t, from), w)
  {
    assert PlaceOk(c, a, w) && StackOk(c, a, from);
    MoveAt(a.place, a.stacks[from], Held(t), w);
  }

  lemma TookAllThread(c: State, a: Abstract, t: nat, s: nat, from: nat, seen: Head)
    requires Inv(c, a) && t < |c.pcs| && c.pcs[t] == SpliceCas(s, from, seen) && from < |c.heads| && c.heads[from] == seen
    requires a.asked[t].Splicing?
    ensures ThreadOk(Detached(c, t, s, from, seen), TookAll(a, t, from), t)
  {
    assert ThreadOk(c, a, t) && StackOk(c, a, from);
  }

  lemma TookAllUnnoticed(c: State, a: Abstract, t: nat, s: nat, from: nat, seen: Head)
    requires Inv(c, a) && t < |c.pcs| && from < |c.heads| && c.heads[from] == seen && a.asked[t].Splicing?
    ensures Unnoticed(c, a, Detached(c, t, s, from, seen), TookAll(a, t, from), t)
  {
    assert StackOk(c, a, from);
  }

  lemma HeadIsNode(c: State, a: Abstract, s: nat)
    requires Inv(c, a) && s < |c.heads|
    ensures c.heads[s].ptr == 0 <==> a.stacks[s] == []
    ensures c.heads[s].ptr != 0 ==> Remembered(c, a, s, c.heads[s])
  {
    assert StackOk(c, a, s);
  }

  /** Walking to the end of the private chain. */
  lemma WalkKeeps(c: State, a: Abstract, t: nat, s: nat, top: Node, end: Node)
    requires Inv(c, a) && t < |c.pcs| && c.pcs[t] == SpliceWalk(s, top, end)
    ensures end < |c.next|
    ensures Inv(Goto(c, t, if c.next[end] != 0 then SpliceWalk(s, top, c.next[end]) else PushLoad(s, top, end, false)), a)
  {
    assert ThreadOk(c, a, t);
    var l := a.held[t];
    var i :| 0 <= i < |l| && l[i] == end;
    assert i < |l| - 1 ==> c.next[l[i]] == l[i + 1];
    OnlyPc(c, a, t, if c.next[end] != 0 then SpliceWalk(s, top, c.next[end]) else PushLoad(s, top, end, false));
  }

  /** What a step means for the abstract stacks. */
  function Meaning(c: State, t: nat, action: Action): Event
    requires Enabled(c, t, action)
  {
    match action {
      case BeginPush(s, v) => PushBegun(s, v)
      case BeginPop(s) => PopBegun(s)
      case BeginSplice(s, from) => SpliceBegun(s, from)
      case Scribble(_, _) => Silent
      case Run(spurious) =>
        match c.pcs[t] {
          case PushCas(s, _, _, _, seen) => if c.heads[s] == seen && !spurious then Prepended(s) else Silent
          case PushTell(s, v) => Answered(c.next[v] == 0)
          case PopLoad(s) => IfEmpty(c, s)
          case PopCas(s, seen, _) => if c.heads[s] == seen && !spurious then Popped(s, seen.ptr) else IfEmpty(c, s)
          case SpliceLoad(_, from) => IfEmpty(c, from)
          case SpliceCas(_, from, seen) => if c.heads[from] == seen && !spurious then TakenAll(from) else IfEmpty(c, from)
          case _ => Silent
        }
    }
  }

  function IfEmpty(c: State, s: nat): Event
    requires s < |c.heads|
  {
    if c.heads[s].ptr == 0 then FoundEmpty(s) else Silent
  }

  /** Reading a head in pop. */
  lemma PopReads(c: State, a: Abstract, t: nat, s: nat) returns (b: Abstract)
    requires Inv(c, a) && t < |c.pcs| == |c.out| && s < |c.heads| && a.asked[t] == Popping(s)
    ensures Inv(PopWith(c, t, s, c.heads[s]), b) && AbstractStep(a, b, t, IfEmpty(c, s))
  {
    assert ThreadOk(c, a, t);
    HeadIsNode(c, a, s);
    b := if a.stacks[s] == [] then Done(a, t, Gave(0)) else a;
    OnlyThread(c, a, t, PopWith(c, t, s, c.heads[s]), b);
  }

  /** Reading the head of the other stack in splice. */
  lemma SpliceReads(c: State, a: Abstract, t: nat, s: nat, from: nat) returns (b: Abstract)
    requires Inv(c, a) && t < |c.pcs| && s < |c.heads| && from < |c.heads| && a.asked[t] == Splicing(s, from)
    ensures Inv(Goto(c, t, SpliceWith(s, from, c.heads[from])), b) && AbstractStep(a, b, t, IfEmpty(c, from))
  {
    assert ThreadOk(c, a, t);
    HeadIsNode(c, a, from);
    b := if a.stacks[from] == [] then Asked(a, t, Nothing) else a;
    OnlyThread(c, a, t, Goto(c, t, SpliceWith(s, from, c.heads[from])), b);
  }

  lemma TellReads(c: State, a: Abstract, t: nat, s: nat, v: Node) returns (b: Abstract)
    requires Inv(c, a) && t < |c.pcs| && c.pcs[t] == PushTell(s, v)
    ensures v < |c.next| && Inv(Finish(c, t, Told(c.next[v] == 0)), b) && AbstractStep(a, b, t, Answered(c.next[v] == 0))
  {
    assert ThreadOk(c, a, t);
    assert StackOk(c, a, s);
    b := Done(a, t, Told(c.next[v] == 0));
    OnlyThread(c, a, t, Finish(c, t, Told(c.next[v] == 0)), b);
  }

  /** A request that only has to be remembered. */
  lemma BeginRefines(c: State, a: Abstract, t: nat, pc: Pc, q: Request)
    requires Inv(c, a) && t < |c.pcs| && c.pcs[t].Idle? && PcOk(c, a, pc, [], q)
    ensures Inv(Goto(c, t, pc), Asked(a, t, q)) && a.asked[t].Nothing?
  {
    assert ThreadOk(c, a, t);
    OnlyThread(c, a, t, Goto(c, t, pc), Asked(a, t, q));
  }

  /** Every step of every thread keeps the invariant and is the abstract step that was asked for, or nothing. */
  lemma StepRefines(c: State, a: Abstract, t: nat, action: Action) returns (b: Abstract)
    requires Inv(c, a) && Enabled(c, t, action)
    ensures Inv(Step(c, t, action), b) && AbstractStep(a, b, t, Meaning(c, t, action))
  {
    b := a;
    match action {
      case BeginPush(s, v) => b := BeginPushRefines(c, a, t, s, v);
      case BeginPop(s) =>
        BeginRefines(c, a, t, PopLoad(s), Popping(s));
        b := Asked(a, t, Popping(s));
      case BeginSplice(s, from) =>
        BeginRefines(c, a, t, SpliceLoad(s, from), Splicing(s, from));
        b := Asked(a, t, Splicing(s, from));
      case Scribble(v, x) => ScribbleKeeps(c, a, v, x);
      case Run(spurious) => b := RunRefines(c, a, t, spurious);
    }
  }

  lemma ThreadInv(c: State, a: Abstract, t: nat)
    requires Inv(c, a) && t < |c.pcs|
    ensures ThreadOk(c, a, t)
  {
  }

  lemma NothingHappens(c: State, a: Abstract, t: nat)
    requires Inv(c, a) && t < |c.pcs|
    ensures AbstractStep(a, a, t, Silent)
  {
  }

  lemma RunRefines(c: State, a: Abstract, t: nat, spurious: bool) returns (b: Abstract)
    requires Inv(c, a) && Enabled(c, t, Run(spurious))
    ensures Inv(Step(c, t, Run(spurious)), b) && AbstractStep(a, b, t, Meaning(c, t, Run(spurious)))
  {
    hide Inv, AbstractStep, Runnable;
    b := a;
    ThreadInv(c, a, t);
    NothingHappens(c, a, t);
    match c.pcs[t] {
      case PushLoad(s, top, end, tell) => OnlyPc(c, a, t, PushWrite(s, top, end, tell, c.heads[s]));
      case PushWrite(s, top, end, tell, seen) => WriteEnd(c, a, t, s, top, end, tell, seen);
      case PushCas(s, top, end, tell, seen) =>
        if c.heads[s] == seen && !spurious {
          b := PutRefines(c, a, t, s, top, end, tell, seen);
        } else {
          OnlyPc(c, a, t, PushWrite(s, top, end, tell, c.heads[s]));
        }
      case PushTell(s, v) => b := TellReads(c, a, t, s, v);
      case PopLoad(s) => b := PopReads(c, a, t, s);
      case PopRead(s, seen) => OnlyPc(c, a, t, PopCas(s, seen, c.next[seen.ptr]));
      case PopCas(s, seen, next) =>
        if c.heads[s] == seen && !spurious {
          b := PopRefines(c, a, t, s, seen, next);
        } else {
          b := PopReads(c, a, t, s);
        }
      case SpliceLoad(s, from) => b := SpliceReads(c, a, t, s, from);
      case SpliceCas(s, from, seen) =>
        if c.heads[from] == seen && !spurious {
          b := TakeAllRefines(c, a, t, s, from, seen);
        } else {
          b := SpliceReads(c, a, t, s, from);
        }
      case SpliceWalk(s, top, end) => WalkKeeps(c, a, t, s, top, end);
      case Idle =>
    }
  }

  // ---------------------------------------------------------------- consequences

  ghost predicate At(a: Abstract, s: nat, i: nat, v: Node) { s < |a.stacks| && i < |a.stacks[s]| && a.stacks[s][i] == v }

  ghost predicate HeldAt(a: Abstract, t: nat, i: nat, v: Node) { t < |a.held| && i < |a.held[t]| && a.held[t][i] == v }

  /** In every reachable state a node is with its client, at one position of one stack, or at one position of one
    * thread's batch, and never in two of these. */
  lemma OnePlace(c: State, a: Abstract, v: Node)
    requires Inv(c, a) && IsNode(c, v)
    ensures v in c.owned || (exists s :: 0 <= s < |a.stacks| && v in a.stacks[s]) || (exists t :: 0 <= t < |a.held| && v in a.held[t])
    ensures forall s :: 0 <= s < |a.stacks| && v in a.stacks[s] ==> v !in c.owned && forall t :: 0 <= t < |a.held| ==> v !in a.held[t]
    ensures forall t :: 0 <= t < |a.held| && v in a.held[t] ==> v !in c.owned
    ensures forall s, i, s', i' :: At(a, s, i, v) && At(a, s', i', v) ==> s == s' && i == i'
    ensures forall t, i, t', i' :: HeldAt(a, t, i, v) && HeldAt(a, t', i', v) ==> t == t' && i == i'
  {
    assert PlaceOk(c, a, v);
    forall s | 0 <= s < |a.stacks| && v in a.stacks[s] ensures a.place[v] == InStack(s) { assert StackOk(c, a, s); }
    forall t | 0 <= t < |a.held| && v in a.held[t] ensures a.place[v] == Held(t) { assert ThreadOk(c, a, t); }
    forall s: nat, i: nat, s': nat, i': nat | At(a, s, i, v) && At(a, s', i', v)
      ensures s == s' && i == i'
    {
      assert v in a.stacks[s] && v in a.stacks[s'];
      assert StackOk(c, a, s);
    }
    forall t: nat, i: nat, t': nat, i': nat | HeldAt(a, t, i, v) && HeldAt(a, t', i', v)
      ensures t == t' && i == i'
    {
      assert v in a.held[t] && v in a.held[t'];
      assert ThreadOk(c, a, t);
    }
  }

  /** A pop that reads the head is over exactly when the stack is empty, and only then answers null. */
  lemma NullMeansEmpty(c: State, a: Abstract, t: nat, s: nat, spurious: bool)
    requires Inv(c, a) && t < |c.pcs| && s < |c.heads|
    requires c.pcs[t] == PopLoad(s) || (c.pcs[t].PopCas? && c.pcs[t].s == s && (c.heads[s] != c.pcs[t].seen || spurious))
    ensures Enabled(c, t, Run(spurious))
    ensures Step(c, t, Run(spurious)).pcs[t].Idle? <==> a.stacks[s] == []
    ensures a.stacks[s] == [] ==> Step(c, t, Run(spurious)).out[t] == Gave(0)
  {
    HeadIsNode(c, a, s);
    NeverStuck(c, a, t, spurious);
  }
}
