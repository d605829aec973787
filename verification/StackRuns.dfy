/** Whole runs of the stacks of TaggedStack: what every operation does from its start to its end. */
module StackRuns {
  import opened TaggedStack

  // ---------------------------------------------------------------- every interleaving

  /** A thread's turn. */
  datatype Turn = Turn(t: nat, action: Action)

  /** A run of any number of threads: one step of one thread at a time. */
  ghost predicate IsRun(states: seq<State>, moves: seq<Turn>) {
    && |states| == |moves| + 1 && Initial(states[0])
    && forall i {:trigger moves[i]} :: 0 <= i < |moves| ==>
         Enabled(states[i], moves[i].t, moves[i].action) && states[i + 1] == Step(states[i], moves[i].t, moves[i].action)
  }

  /** The abstract run beside it. */
  ghost predicate Explains(states: seq<State>, moves: seq<Turn>, abstracts: seq<Abstract>)
    requires IsRun(states, moves)
  {
    && |abstracts| == |states| && abstracts[0] == InitialAbstract(states[0])
    && (forall i {:trigger Inv(states[i], abstracts[i])} :: 0 <= i < |states| ==> Inv(states[i], abstracts[i]))
    && (forall i {:trigger moves[i]} :: 0 <= i < |moves| ==>
          AbstractStep(abstracts[i], abstracts[i + 1], moves[i].t, Meaning(states[i], moves[i].t, moves[i].action)))
  }

  /** Every interleaving is a run of last-in-first-out stacks. */
  lemma {:induction false} RunsAreLifo(states: seq<State>, moves: seq<Turn>) returns (abstracts: seq<Abstract>)
    requires IsRun(states, moves)
    ensures Explains(states, moves, abstracts)
  {
    if moves == [] {
      InitialInv(states[0]);
      abstracts := [InitialAbstract(states[0])];
    } else {
      hide Step, Meaning, AbstractStep, Inv, Enabled, Initial;
      var n, m := |moves| - 1, moves[|moves| - 1];
      PrefixRun(states, moves);
      abstracts := RunsAreLifo(states[..n + 1], moves[..n]);
      assert Inv(states[..n + 1][n], abstracts[n]);
      var last := StepRefines(states[n], abstracts[n], m.t, m.action);
      Extended(states, moves, abstracts, last);
      abstracts := abstracts + [last];
    }
  }

  lemma PrefixRun(states: seq<State>, moves: seq<Turn>)
    requires IsRun(states, moves) && moves != []
    ensures IsRun(states[..|moves|], moves[..|moves| - 1])
  {
    hide Step, Enabled, Initial;
    var before := moves[..|moves| - 1];
    forall i | 0 <= i < |before|
      ensures Enabled(states[i], before[i].t, before[i].action) && states[i + 1] == Step(states[i], before[i].t, before[i].action)
    {
      assert moves[i] == before[i];
    }
  }

  lemma Extended(states: seq<State>, moves: seq<Turn>, abstracts: seq<Abstract>, last: Abstract)
    requires IsRun(states, moves) && moves != []
    requires var n := |moves| - 1; IsRun(states[..n + 1], moves[..n]) && Explains(states[..n + 1], moves[..n], abstracts)
    requires var n := |moves| - 1;
      Inv(states[n + 1], last) && AbstractStep(abstracts[n], last, moves[n].t, Meaning(states[n], moves[n].t, moves[n].action))
    ensures Explains(states, moves, abstracts + [last])
  {
    hide Step, Meaning, AbstractStep, Inv, Enabled, Initial;
    var n, all := |moves| - 1, abstracts + [last];
    forall i | 0 <= i < |states| ensures Inv(states[i], all[i]) {
      if i <= n { assert Inv(states[..n + 1][i], abstracts[i]); }
    }
    forall i | 0 <= i < |moves| ensures AbstractStep(all[i], all[i + 1], moves[i].t, Meaning(states[i], moves[i].t, moves[i].action)) {
      if i < n { assert moves[..n][i] == moves[i]; }
    }
  }

  lemma TurnOf(states: seq<State>, moves: seq<Turn>, abstracts: seq<Abstract>, k: nat)
    requires IsRun(states, moves) && Explains(states, moves, abstracts) && k < |moves|
    ensures Inv(states[k], abstracts[k]) && Inv(states[k + 1], abstracts[k + 1]) && Enabled(states[k], moves[k].t, moves[k].action)
    ensures states[k + 1] == Step(states[k], moves[k].t, moves[k].action)
    ensures AbstractStep(abstracts[k], abstracts[k + 1], moves[k].t, Meaning(states[k], moves[k].t, moves[k].action))
  {
    hide Inv, Enabled, Step, AbstractStep, Meaning, Initial;
    assert moves[k] == moves[k];
  }

  // ---------------------------------------------------------------- one turn, seen by thread t

  /** A thread is idle exactly when nothing is asked of it. */
  lemma IdleMeans(c: State, a: Abstract, t: nat)
    requires Inv(c, a) && t < |c.pcs|
    ensures t < |a.asked| && (c.pcs[t].Idle? <==> a.asked[t].Nothing?) && t < |c.out| == |a.out| && c.out[t] == a.out[t]
  {
    assert ThreadOk(c, a, t);
  }

  /** What another thread does is not asked of t. */
  lemma NotMine(a: Abstract, b: Abstract, t: nat, u: nat, e: Event)
    requires AbstractStep(a, b, u, e) && t != u && t < |a.asked|
    ensures SameTask(a, b, t)
  {
  }

  ghost predicate SameTask(a: Abstract, b: Abstract, t: nat) {
    t < |b.asked| == |a.asked| == |b.held| == |a.held| && b.asked[t] == a.asked[t] && b.held[t] == a.held[t]
  }

  lemma PopTurn(a: Abstract, b: Abstract, t: nat, e: Event, s: nat)
    requires AbstractStep(a, b, t, e) && a.asked[t] == Popping(s)
    ensures |b.asked| == |a.asked| == |b.out|
    ensures b == a || (b.asked[t].Nothing? && s < |a.stacks| && Served(a, b, t, s))
  {
  }

  /** Thread t gets the top of s, or null if there is none. */
  ghost predicate Served(a: Abstract, b: Abstract, t: nat, s: nat)
    requires s < |a.stacks| && t < |b.out|
  {
    if a.stacks[s] == [] then b.stacks == a.stacks && b.out[t] == Gave(0)
    else b.stacks == a.stacks[s := a.stacks[s][1..]] && b.out[t] == Gave(a.stacks[s][0])
  }

  lemma PushTurn(a: Abstract, b: Abstract, t: nat, e: Event, s: nat, tell: bool)
    requires AbstractStep(a, b, t, e) && a.asked[t] == Giving(s, tell)
    ensures |b.asked| == |a.asked| == |a.held|
    ensures b == a || (s < |a.stacks| == |a.removed| && b.stacks == a.stacks[s := a.held[t] + a.stacks[s]] && a.held[t] != []
      && b.asked[t] == if tell then Telling(s, a.held[t][0], a.stacks[s] == [], a.removed[s]) else Nothing)
  {
  }

  lemma TellTurn(a: Abstract, b: Abstract, t: nat, e: Event, s: nat, v: Node, empty: bool, since: nat)
    requires AbstractStep(a, b, t, e) && a.asked[t] == Telling(s, v, empty, since)
    ensures |b.asked| == |a.asked| == |b.out|
    ensures b == a || (b.asked[t].Nothing? && b.stacks == a.stacks && s < |a.removed| && b.out[t].Told?
      && (since == a.removed[s] ==> b.out[t] == Told(empty)))
  {
  }

  lemma SpliceTurn(a: Abstract, b: Abstract, t: nat, e: Event, s: nat, from: nat)
    requires AbstractStep(a, b, t, e) && a.asked[t] == Splicing(s, from)
    ensures |b.asked| == |a.asked| == |b.held|
    ensures b == a
      || (from < |a.stacks| && a.stacks[from] == [] && b.stacks == a.stacks && b.asked[t].Nothing?)
      || (from < |a.stacks| && a.stacks[from] != [] && b.stacks == a.stacks[from := []]
          && b.asked[t] == Giving(s, false) && b.held[t] == a.stacks[from])
  {
  }

  // ---------------------------------------------------------------- from the start of an operation to its end

  /** Thread t is at work after turn i up to the state n. */
  ghost predicate Working(states: seq<State>, t: nat, i: nat, n: nat) {
    i < n < |states| && forall k :: i < k <= n ==> t < |states[k].pcs| && !states[k].pcs[t].Idle?
  }

  /** An operation that thread t starts with turn i is over with turn j. */
  ghost predicate Over(states: seq<State>, moves: seq<Turn>, t: nat, i: nat, j: nat) {
    && i < j < |moves| && |states| == |moves| + 1 && moves[i].t == t && Working(states, t, i, j)
    && t < |states[j + 1].pcs| && states[j + 1].pcs[t].Idle?
  }

  /** The turns of thread t from i up to j change no stack. */
  ghost predicate Quiet(moves: seq<Turn>, abstracts: seq<Abstract>, t: nat, i: nat, j: nat) {
    && i <= j <= |moves| < |abstracts|
    && forall k {:trigger moves[k]} :: i <= k < j && moves[k].t == t ==> abstracts[k + 1].stacks == abstracts[k].stacks
  }

  /** What turn k is to thread t. */
  lemma Turned(states: seq<State>, moves: seq<Turn>, abstracts: seq<Abstract>, t: nat, k: nat) returns (e: Event)
    requires IsRun(states, moves) && Explains(states, moves, abstracts) && k < |moves| && t < |abstracts[k].asked|
    ensures e == Meaning(states[k], moves[k].t, moves[k].action)
    ensures moves[k].t == t ==> AbstractStep(abstracts[k], abstracts[k + 1], t, e)
    ensures moves[k].t != t ==> SameTask(abstracts[k], abstracts[k + 1], t)
    ensures t < |states[k + 1].pcs| == |abstracts[k + 1].asked|
    ensures states[k + 1].pcs[t].Idle? <==> abstracts[k + 1].asked[t].Nothing?
    ensures states[k + 1].out == abstracts[k + 1].out
  {
    hide Step, Initial, Enabled, IsRun, Explains, Meaning, ThreadOk, StackOk, PlaceOk;
    Sizes(states, moves, abstracts);
    TurnOf(states, moves, abstracts, k);
    e := Meaning(states[k], moves[k].t, moves[k].action);
    SameThreads(abstracts[k], abstracts[k + 1], moves[k].t, e);
    IdleMeans(states[k + 1], abstracts[k + 1], t);
    if moves[k].t != t { NotMine(abstracts[k], abstracts[k + 1], t, moves[k].t, e); }
  }

  lemma Sizes(states: seq<State>, moves: seq<Turn>, abstracts: seq<Abstract>)
    requires IsRun(states, moves) && Explains(states, moves, abstracts)
    ensures |states| == |abstracts| == |moves| + 1
  {
  }

  lemma SameThreads(a: Abstract, b: Abstract, u: nat, e: Event)
    requires AbstractStep(a, b, u, e)
    ensures |b.asked| == |a.asked|
  {
  }

  lemma {:induction false} StillPopping(
    states: seq<State>, moves: seq<Turn>, abstracts: seq<Abstract>, t: nat, s: nat, i: nat, n: nat)
    requires IsRun(states, moves) && Explains(states, moves, abstracts)
    requires i < |moves| && moves[i] == Turn(t, BeginPop(s)) && Working(states, t, i, n)
    ensures t < |abstracts[n].asked| && abstracts[n].asked[t] == Popping(s) && Quiet(moves, abstracts, t, i, n)
  {
    hide Inv, Enabled, Step, Initial, IsRun, Explains;
    Sizes(states, moves, abstracts);
    if n == i + 1 {
      TurnOf(states, moves, abstracts, i);
    } else {
      StillPopping(states, moves, abstracts, t, s, i, n - 1);
      hide AbstractStep, Meaning;
      var e := Turned(states, moves, abstracts, t, n - 1);
      if moves[n - 1].t == t { PopTurn(abstracts[n - 1], abstracts[n], t, e, s); }
    }
  }

  /** A pop begun on s ends with a turn that takes the top of s and answers with it, or at which s is empty and that
    * answers null; no other turn of it changes any stack. */
  lemma PopAnswers(states: seq<State>, moves: seq<Turn>, abstracts: seq<Abstract>, t: nat, s: nat, i: nat, j: nat)
    requires IsRun(states, moves) && Explains(states, moves, abstracts)
    requires Over(states, moves, t, i, j) && moves[i].action == BeginPop(s)
    ensures moves[j].t == t && Quiet(moves, abstracts, t, i, j)
    ensures s < |abstracts[j].stacks| && t < |states[j + 1].out|
    ensures var a, b := abstracts[j], abstracts[j + 1];
      if a.stacks[s] == [] then states[j + 1].out[t] == Gave(0) && b.stacks == a.stacks
      else states[j + 1].out[t] == Gave(a.stacks[s][0]) && b.stacks == a.stacks[s := a.stacks[s][1..]]
  {
    hide Inv, Enabled, Step, Initial, IsRun, Explains, AbstractStep, Meaning;
    StillPopping(states, moves, abstracts, t, s, i, j);
    var e := Turned(states, moves, abstracts, t, j);
    if moves[j].t == t { PopTurn(abstracts[j], abstracts[j + 1], t, e, s); }
  }

  /** With turn k thread t puts the nodes l on top of s. */
  ghost predicate Lands(moves: seq<Turn>, abstracts: seq<Abstract>, t: nat, k: nat, s: nat, l: seq<Node>) {
    && k < |moves| < |abstracts| && moves[k].t == t && s < |abstracts[k].stacks| == |abstracts[k].removed|
    && abstracts[k + 1].stacks == abstracts[k].stacks[s := l + abstracts[k].stacks[s]]
  }

  lemma {:induction false} StillPushing(
    states: seq<State>, moves: seq<Turn>, abstracts: seq<Abstract>, t: nat, s: nat, v: Node, i: nat, n: nat) returns (k: nat)
    requires IsRun(states, moves) && Explains(states, moves, abstracts)
    requires i < |moves| && moves[i] == Turn(t, BeginPush(s, v)) && Working(states, t, i, n)
    ensures i < k <= n && t < |abstracts[n].asked| == |abstracts[n].held| && Quiet(moves, abstracts, t, i, k)
    ensures k == n ==> abstracts[n].asked[t] == Giving(s, true) && abstracts[n].held[t] == [v]
    ensures k < n ==> Lands(moves, abstracts, t, k, s, [v]) && Quiet(moves, abstracts, t, k + 1, n)
    ensures k < n ==> abstracts[n].asked[t] == Telling(s, v, abstracts[k].stacks[s] == [], abstracts[k].removed[s])
  {
    hide Inv, Enabled, Step, Initial, IsRun, Explains;
    Sizes(states, moves, abstracts);
    if n == i + 1 {
      TurnOf(states, moves, abstracts, i);
      k := n;
    } else {
      k := StillPushing(states, moves, abstracts, t, s, v, i, n - 1);
      hide AbstractStep, Meaning;
      var e := Turned(states, moves, abstracts, t, n - 1);
      var a, b := abstracts[n - 1], abstracts[n];
      if k < n - 1 {
        if moves[n - 1].t == t { TellTurn(a, b, t, e, s, v, abstracts[k].stacks[s] == [], abstracts[k].removed[s]); }
      } else if moves[n - 1].t == t {
        PushTurn(a, b, t, e, s, true);
        if b == a { k := n; }
      } else {
        k := n;
      }
    }
  }

  /** A push of v begun on s puts v on top of s with one of its turns and changes no stack with the others; if nothing
    * is removed from s between, its answer says whether s was empty. */
  lemma PushLands(states: seq<State>, moves: seq<Turn>, abstracts: seq<Abstract>, t: nat, s: nat, v: Node, i: nat, j: nat)
    returns (k: nat)
    requires IsRun(states, moves) && Explains(states, moves, abstracts)
    requires Over(states, moves, t, i, j) && moves[i].action == BeginPush(s, v)
    ensures i < k < j && Lands(moves, abstracts, t, k, s, [v])
    ensures Quiet(moves, abstracts, t, i, k) && Quiet(moves, abstracts, t, k + 1, j + 1)
    ensures moves[j].t == t && s < |abstracts[j].removed| && t < |states[j + 1].out| && states[j + 1].out[t].Told?
    ensures abstracts[j].removed[s] == abstracts[k].removed[s] ==>
      (states[j + 1].out[t] == Told(true) <==> abstracts[k].stacks[s] == [])
  {
    hide Inv, Enabled, Step, Initial, IsRun, Explains, AbstractStep, Meaning;
    k := StillPushing(states, moves, abstracts, t, s, v, i, j);
    var e := Turned(states, moves, abstracts, t, j);
    if moves[j].t == t && k == j { PushTurn(abstracts[j], abstracts[j + 1], t, e, s, true); }
    if moves[j].t == t && k < j {
      TellTurn(abstracts[j], abstracts[j + 1], t, e, s, v, abstracts[k].stacks[s] == [], abstracts[k].removed[s]);
    }
  }

  /** With turn k thread t takes the nodes l, all there are, from `from`. */
  ghost predicate Leaves(moves: seq<Turn>, abstracts: seq<Abstract>, t: nat, k: nat, from: nat, l: seq<Node>) {
    && k < |moves| < |abstracts| && moves[k].t == t && from < |abstracts[k].stacks|
    && l == abstracts[k].stacks[from] && l != [] && abstracts[k + 1].stacks == abstracts[k].stacks[from := []]
  }

  lemma {:induction false} StillSplicing(
    states: seq<State>, moves: seq<Turn>, abstracts: seq<Abstract>, t: nat, s: nat, from: nat, i: nat, n: nat)
    returns (k: nat, l: seq<Node>)
    requires IsRun(states, moves) && Explains(states, moves, abstracts)
    requires i < |moves| && moves[i] == Turn(t, BeginSplice(s, from)) && Working(states, t, i, n)
    ensures i < k <= n && t < |abstracts[n].asked| == |abstracts[n].held| && Quiet(moves, abstracts, t, i, k)
    ensures k == n ==> abstracts[n].asked[t] == Splicing(s, from)
    ensures k < n ==> Leaves(moves, abstracts, t, k, from, l) && Quiet(moves, abstracts, t, k + 1, n)
    ensures k < n ==> abstracts[n].asked[t] == Giving(s, false) && abstracts[n].held[t] == l
  {
    hide Inv, Enabled, Step, Initial, IsRun, Explains;
    Sizes(states, moves, abstracts);
    l := [];
    if n == i + 1 {
      TurnOf(states, moves, abstracts, i);
      k := n;
    } else {
      k, l := StillSplicing(states, moves, abstracts, t, s, from, i, n - 1);
      hide AbstractStep, Meaning;
      var e := Turned(states, moves, abstracts, t, n - 1);
      var a, b := abstracts[n - 1], abstracts[n];
      if k < n - 1 {
        if moves[n - 1].t == t { PushTurn(a, b, t, e, s, false); }
      } else if moves[n - 1].t == t {
        SpliceTurn(a, b, t, e, s, from);
        if b == a { k := n; } else { l := b.held[t]; }
      } else {
        k := n;
      }
    }
  }

  /** A splice of `from` into s takes all of `from` with one of its turns and puts that on top of s, in order, with its
    * last one; or it ends at a turn at which `from` is empty. Its other turns change no stack. */
  lemma SpliceMoves(states: seq<State>, moves: seq<Turn>, abstracts: seq<Abstract>, t: nat, s: nat, from: nat, i: nat, j: nat)
    returns (k: nat, l: seq<Node>)
    requires IsRun(states, moves) && Explains(states, moves, abstracts)
    requires Over(states, moves, t, i, j) && moves[i].action == BeginSplice(s, from)
    ensures moves[j].t == t && i < k <= j && Quiet(moves, abstracts, t, i, k)
    ensures k < j ==> Leaves(moves, abstracts, t, k, from, l) && Quiet(moves, abstracts, t, k + 1, j) && Lands(moves, abstracts, t, j, s, l)
    ensures k == j ==>
      from < |abstracts[j].stacks| && abstracts[j].stacks[from] == [] && abstracts[j + 1].stacks == abstracts[j].stacks
  {
    hide Inv, Enabled, Step, Initial, IsRun, Explains, AbstractStep, Meaning;
    k, l := StillSplicing(states, moves, abstracts, t, s, from, i, j);
    var e := Turned(states, moves, abstracts, t, j);
    if moves[j].t == t && k == j { SpliceTurn(abstracts[j], abstracts[j + 1], t, e, s, from); }
    if moves[j].t == t && k < j { PushTurn(abstracts[j], abstracts[j + 1], t, e, s, false); }
  }

  // ---------------------------------------------------------------- no thread waits for another

  function Next(c: State, t: nat): State {
    if Enabled(c, t, Run(false)) then Step(c, t, Run(false)) else c
  }

  /** Thread t running alone for n turns. */
  function Alone(c: State, t: nat, n: nat): State
    decreases n
  {
    if n == 0 then c else Alone(Next(c, t), t, n - 1)
  }

  function Position(l: seq<Node>, v: Node): (i: nat)
    ensures i <= |l| && (v in l ==> i < |l| && l[i] == v)
  {
    if l == [] || l[0] == v then 0 else 1 + Position(l[1..], v)
  }

  predicate Fresh(c: State, s: nat, seen: Head) { s < |c.heads| && c.heads[s] == seen }

  function Height(a: Abstract, s: nat): nat { if s < |a.stacks| then |a.stacks[s]| else 0 }

  function ToWalk(a: Abstract, t: nat, end: Node): nat { if t < |a.held| then |a.held[t]| - Position(a.held[t], end) else 0 }

  /** The turns thread t needs at most if the other threads pause and no compare-and-swap fails for no reason. */
  function Left(c: State, a: Abstract, t: nat): nat
    requires t < |c.pcs|
  {
    match c.pcs[t] {
      case Idle => 0
      case PushLoad(_, _, _, _) => 4
      case PushWrite(s, _, _, _, seen) => if Fresh(c, s, seen) then 3 else 5
      case PushCas(s, _, _, _, seen) => if Fresh(c, s, seen) then 2 else 4
      case PushTell(_, _) => 1
      case PopLoad(_) => 3
      case PopRead(s, seen) => if Fresh(c, s, seen) then 2 else 4
      case PopCas(s, seen, _) => if Fresh(c, s, seen) then 1 else 3
      case SpliceLoad(_, from) => 6 + Height(a, from)
      case SpliceCas(_, from, seen) => (if Fresh(c, from, seen) then 5 else 6) + Height(a, from)
      case SpliceWalk(_, _, end) => 4 + ToWalk(a, t, end)
    }
  }

  lemma {:induction false} PositionAt(l: seq<Node>, i: nat)
    requires i < |l| && forall j, k :: 0 <= j < k < |l| ==> l[j] != l[k]
    ensures Position(l, l[i]) == i
  {
    if i > 0 { PositionAt(l[1..], i - 1); }
  }

  lemma NearerToEnd(c: State, a: Abstract, b: Abstract, t: nat)
    requires Enabled(c, t, Run(false)) && !c.pcs[t].SpliceLoad? && !c.pcs[t].SpliceCas? && !c.pcs[t].SpliceWalk?
    ensures |Next(c, t).pcs| == |c.pcs| && Left(Next(c, t), b, t) < Left(c, a, t)
  {
  }

  lemma TopFirst(c: State, a: Abstract, s: nat)
    requires Inv(c, a) && s < |c.heads|
    ensures s < |a.stacks| && (a.stacks[s] != [] ==> a.stacks[s][0] == c.heads[s].ptr)
  {
    assert StackOk(c, a, s);
  }

  lemma NearerToTake(c: State, a: Abstract, b: Abstract, t: nat)
    requires Inv(c, a) && Enabled(c, t, Run(false)) && (c.pcs[t].SpliceLoad? || c.pcs[t].SpliceCas?)
    requires AbstractStep(a, b, t, Meaning(c, t, Run(false)))
    ensures |Next(c, t).pcs| == |c.pcs| && Left(Next(c, t), b, t) < Left(c, a, t)
  {
    hide Inv, StackOk;
    HeadIsNode(c, a, c.pcs[t].from);
    TopFirst(c, a, c.pcs[t].from);
  }

  lemma NearerToLast(c: State, a: Abstract, b: Abstract, t: nat)
    requires Inv(c, a) && Enabled(c, t, Run(false)) && c.pcs[t].SpliceWalk? && b == a
    ensures |Next(c, t).pcs| == |c.pcs| && Left(Next(c, t), b, t) < Left(c, a, t)
  {
    hide Inv, AbstractStep;
    ThreadInv(c, a, t);
    var l, end := a.held[t], c.pcs[t].end;
    var i := Position(l, end);
    if i + 1 < |l| {
      assert c.next[l[i]] == l[i + 1];
      PositionAt(l, i + 1);
    }
  }

  /** One turn of a thread that runs alone brings it nearer to its end. */
  lemma Nearer(c: State, a: Abstract, t: nat) returns (b: Abstract)
    requires Inv(c, a) && t < |c.pcs| && !c.pcs[t].Idle?
    ensures Inv(Next(c, t), b) && |Next(c, t).pcs| == |c.pcs| && Left(Next(c, t), b, t) < Left(c, a, t)
  {
    NeverStuck(c, a, t, false);
    b := StepRefines(c, a, t, Run(false));
    hide Inv, Enabled, Step, Left;
    match c.pcs[t] {
      case SpliceWalk(s, top, end) => NearerToLast(c, a, b, t);
      case SpliceLoad(_, _) => NearerToTake(c, a, b, t);
      case SpliceCas(_, _, _) => NearerToTake(c, a, b, t);
      case _ => NearerToEnd(c, a, b, t);
    }
  }

  /** Whatever the other threads have done so far, a thread that runs alone finishes its operation. */
  lemma {:induction false} Finishes(c: State, a: Abstract, t: nat) returns (n: nat)
    requires Inv(c, a) && t < |c.pcs|
    ensures n <= Left(c, a, t) && t < |Alone(c, t, n).pcs| && Alone(c, t, n).pcs[t].Idle?
    decreases Left(c, a, t)
  {
    if c.pcs[t].Idle? {
      n := 0;
    } else {
      var b := Nearer(c, a, t);
      var m := Finishes(Next(c, t), b, t);
      n := m + 1;
    }
  }

  // ---------------------------------------------------------------- the answer of a push may come too late

  function Late(head: Head, link: Node, first: Pc, second: Pc, owned: set<Node>, out: seq<Answer>): State {
    State([head], [0, link], [first, second], out, owned)
  }

  /** Two threads on one empty stack: the first pushes node 1, the second pops it and writes to its link, and then the
    * first reads that link. */
  function LateMoves(): (moves: seq<Turn>)
    ensures |moves| == 10
  {
    var run := Run(false);
    [Turn(0, BeginPush(0, 1)), Turn(0, run), Turn(0, run), Turn(0, run), Turn(1, BeginPop(0)), Turn(1, run), Turn(1, run),
     Turn(1, run), Turn(1, Scribble(1, 1)), Turn(0, run)]
  }

  function LateStates(): (states: seq<State>)
    ensures |states| == 11
  {
    var h, p, q, none, some := Head(0, 0), Head(1, 0), Head(0, 1), [NoAnswer, NoAnswer], [NoAnswer, Gave(1)];
    var tell := PushTell(0, 1);
    [Late(h, 0, Idle, Idle, {1}, none), Late(h, 0, PushLoad(0, 1, 1, true), Idle, {}, none),
     Late(h, 0, PushWrite(0, 1, 1, true, h), Idle, {}, none), Late(h, 0, PushCas(0, 1, 1, true, h), Idle, {}, none),
     Late(p, 0, tell, Idle, {}, none), Late(p, 0, tell, PopLoad(0), {}, none), Late(p, 0, tell, PopRead(0, p), {}, none),
     Late(p, 0, tell, PopCas(0, p, 0), {}, none), Late(q, 0, tell, Idle, {1}, some), Late(q, 1, tell, Idle, {1}, some),
     Late(q, 1, Idle, Idle, {1}, [Told(false), Gave(1)])]
  }

  ghost predicate TurnFits(states: seq<State>, moves: seq<Turn>, i: nat)
    requires i < |moves| && |states| == |moves| + 1
  {
    Enabled(states[i], moves[i].t, moves[i].action) && states[i + 1] == Step(states[i], moves[i].t, moves[i].action)
  }

  lemma LatePush()
    ensures forall i :: 0 <= i < 4 ==> TurnFits(LateStates(), LateMoves(), i)
  {
    var states, moves := LateStates(), LateMoves();
    assert TurnFits(states, moves, 0);
    assert TurnFits(states, moves, 1);
    assert TurnFits(states, moves, 2);
    assert TurnFits(states, moves, 3);
  }

  lemma LatePop()
    ensures forall i :: 4 <= i < 8 ==> TurnFits(LateStates(), LateMoves(), i)
  {
    var states, moves := LateStates(), LateMoves();
    assert TurnFits(states, moves, 4);
    assert TurnFits(states, moves, 5);
    assert TurnFits(states, moves, 6);
    assert TurnFits(states, moves, 7);
  }

  lemma LateEnd()
    ensures TurnFits(LateStates(), LateMoves(), 8) && TurnFits(LateStates(), LateMoves(), 9)
  {
  }

  /** The first thread pushes on an empty stack and answers that it was not empty. */
  lemma LateAnswer(states: seq<State>, moves: seq<Turn>)
    requires states == LateStates() && moves == LateMoves()
    ensures IsRun(states, moves) && Over(states, moves, 0, 0, 9) && moves[0].action == BeginPush(0, 1)
    ensures states[3].heads[0].ptr == 0 && states[4].heads[0].ptr == 1 && states[10].out[0] == Told(false)
  {
    hide Step, Enabled;
    LatePush();
    LatePop();
    LateEnd();
    assert Initial(states[0]);
    forall i | 0 <= i < |moves|
      ensures Enabled(states[i], moves[i].t, moves[i].action) && states[i + 1] == Step(states[i], moves[i].t, moves[i].action)
    {
      assert TurnFits(states, moves, i);
    }
  }
}
