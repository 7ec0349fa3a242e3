// A rate-limit group whose members are suspended and released by many threads
// (bev_group_suspend_reading_, bev_group_unsuspend_reading_, bufferevent_get_rlim_max_,
// bufferevent_add_to_rate_limit_group, bufferevent_remove_from_rate_limit_group). The group lock
// nests inside the bufferevents' locks, so a thread that has it only tries to take those.
// This is one direction; the other has its own flags and the same code.
module RateGroup {
  import opened Options

  // What a thread is doing, apart from holding bufferevents' locks.
  datatype Doing =
    | Nothing
    | InGroup                                                        // has the group lock
    | Suspending(todo: seq<nat>)                                     // ... and suspends the members still to do
    | Unsuspending(visited: seq<nat>, todo: seq<nat>, again: bool)   // ... and releases them
    | Joined(b: nat, wasSuspended: bool)                             // has added b, and given up the group lock
    | Left(b: nat)                                                   // has removed b, and given up the group lock

  datatype State = State(
    groupLock: Option<nat>,    // the thread that has it
    suspended: bool,           // read_suspended
    pending: bool,             // pending_unsuspend_read
    members: seq<nat>,
    owner: map<nat, nat>,      // which thread has a bufferevent's lock
    carrying: set<nat>,        // the bufferevents with BEV_SUSPEND_BW_GROUP
    doing: map<nat, Doing>)
  {
    function Does(t: nat): Doing {
      if t in doing then doing[t] else Nothing
    }

    predicate Has(t: nat, b: nat) {
      b in owner && owner[b] == t
    }

    // EVLOCK_TRY_LOCK_; the locks are recursive.
    predicate CanLock(t: nat, b: nat) {
      b !in owner || owner[b] == t
    }
  }

  // FOREACH_RANDOM_ORDER: from the member at `which` to the last, then from the first.
  function Rotated(members: seq<nat>, which: nat): seq<nat> {
    if which < |members| then members[which..] + members[..which] else members
  }

  lemma RotatedOnce(members: seq<nat>, which: nat)
    ensures multiset(Rotated(members, which)) == multiset(members)
  {
    if which < |members| {
      assert members == members[..which] + members[which..];
    }
  }

  // No member is listed twice.
  predicate Distinct(l: seq<nat>) {
    forall i, j :: 0 <= i < j < |l| ==> l[i] != l[j]
  }

  // The second loop of FOREACH_RANDOM_ORDER: the elements up to the one the first loop started with.
  method UpTo(members: seq<nat>, which: nat) returns (visited: seq<nat>)
    requires which < |members| && Distinct(members)
    ensures visited == members[..which]
  {
    var first := members[which];
    var k := 0;
    visited := [];
    while k < |members| && members[k] != first
      invariant k <= which && visited == members[..k]
    {
      assert members[..k + 1] == members[..k] + [members[k]];
      visited := visited + [members[k]];
      k := k + 1;
    }
    assert k == which;
  }

  // The loops of FOREACH_RANDOM_ORDER over the list, starting at a random element.
  method RandomOrder(members: seq<nat>, which: nat) returns (visited: seq<nat>)
    requires which < |members| || members == []
    requires Distinct(members)
    ensures visited == Rotated(members, which) && multiset(visited) == multiset(members)
  {
    visited := [];
    RotatedOnce(members, which);
    if members == [] {
      return;
    }
    var k := which;
    while k < |members|
      invariant which <= k <= |members| && visited == members[which..k]
    {
      assert members[which..k + 1] == members[which..k] + [members[k]];
      visited := visited + [members[k]];
      k := k + 1;
    }
    assert visited == members[which..];
    var before := UpTo(members, which);
    visited := visited + before;
  }

  // The atomic steps of thread t. What it does while it has a lock that others need to see the
  // effect is one step.
  datatype Action =
    | Lock(b: nat)           // take a bufferevent's lock
    | Unlock(b: nat)
    | LockGroup
    | UnlockGroup
    | Join(b: nat)           // insert b, note whether the group is suspended, unlock the group
    | AfterJoin              // suspend b if it was
    | Leave(b: nat)          // take b out, unlock the group
    | AfterLeave             // release b
    | Look(b: nat)           // bufferevent_get_rlim_max_ suspends b if the group is
    | StartSuspending
    | StartUnsuspending(which: nat)
    | Visit                  // the next member of the pass
    | EndPass

  predicate Enabled(s: State, t: nat, a: Action) {
    var d := s.Does(t);
    match a
    case Lock(b) => s.CanLock(t, b)
    case Unlock(b) => s.Has(t, b) && d != Left(b) && d != Joined(b, false) && d != Joined(b, true)
    case LockGroup => d.Nothing? && s.groupLock.None?
    case UnlockGroup => d.InGroup?
    case Join(b) => d.InGroup? && s.Has(t, b) && b !in s.members
    case AfterJoin => d.Joined?
    case Leave(b) => d.InGroup? && s.Has(t, b) && b in s.members
    case AfterLeave => d.Left?
    case Look(b) => d.InGroup? && s.Has(t, b) && b in s.members
    case StartSuspending => d.InGroup?
    case StartUnsuspending(which) => d.InGroup?
    case Visit => (d.Suspending? || d.Unsuspending?) && d.todo != []
    case EndPass => (d.Suspending? || d.Unsuspending?) && d.todo == []
  }

  function Without(l: seq<nat>, b: nat): (r: seq<nat>)
    ensures forall x :: x in r <==> x in l && x != b
  {
    if l == [] then [] else (if l[0] == b then [] else [l[0]]) + Without(l[1..], b)
  }

  function Step(s: State, t: nat, a: Action): State
    requires Enabled(s, t, a)
  {
    var d := s.Does(t);
    match a
    case Lock(b) => s.(owner := s.owner[b := t])
    case Unlock(b) => s.(owner := s.owner - {b})
    case LockGroup => s.(groupLock := Some(t), doing := s.doing[t := InGroup])
    case UnlockGroup => s.(groupLock := None, doing := s.doing[t := Nothing])
    case Join(b) => s.(members := [b] + s.members, groupLock := None, doing := s.doing[t := Joined(b, s.suspended)])
    case AfterJoin => s.(carrying := s.carrying + (if d.wasSuspended then {d.b} else {}), doing := s.doing[t := Nothing])
    case Leave(b) => s.(members := Without(s.members, b), groupLock := None, doing := s.doing[t := Left(b)])
    case AfterLeave => s.(carrying := s.carrying - {d.b}, doing := s.doing[t := Nothing])
    case Look(b) => s.(carrying := s.carrying + if s.suspended then {b} else {})
    case StartSuspending => s.(suspended := true, pending := false, doing := s.doing[t := Suspending(s.members)])
    case StartUnsuspending(which) => s.(suspended := false, doing := s.doing[t := Unsuspending([], Rotated(s.members, which), false)])
    case Visit =>
      var b := d.todo[0];
      if d.Suspending? then
        s.(carrying := s.carrying + (if s.CanLock(t, b) then {b} else {}), doing := s.doing[t := Suspending(d.todo[1..])])
      else
        s.(carrying := s.carrying - (if s.CanLock(t, b) then {b} else {}),
           doing := s.doing[t := Unsuspending(d.visited + [b], d.todo[1..], d.again || !s.CanLock(t, b))])
    case EndPass =>
      if d.Suspending? then s.(doing := s.doing[t := InGroup])
      else s.(pending := d.again, doing := s.doing[t := InGroup])
  }

  // A bufferevent that carries the suspension, or is about to.
  predicate Marked(s: State, b: nat) {
    b in s.carrying || (b in s.owner && s.Does(s.owner[b]) == Joined(b, true))
  }

  predicate InSection(d: Doing) {
    d.InGroup? || d.Suspending? || d.Unsuspending?
  }

  // A thread's part of the invariant.
  ghost predicate Agrees(s: State, t: nat) {
    var d := s.Does(t);
    && (InSection(d) <==> s.groupLock == Some(t))
    && (d.Joined? ==> s.Has(t, d.b) && d.b in s.members)
    && (d.Left? ==> s.Has(t, d.b) && d.b !in s.members)
    && (d.Suspending? ==> s.suspended && forall i :: 0 <= i < |d.todo| ==> d.todo[i] in s.members)
    && (d.Unsuspending? ==> !s.suspended && multiset(d.visited) + multiset(d.todo) == multiset(s.members))
  }

  // A member's part: the suspension it carries will be lifted.
  ghost predicate Cared(s: State, b: nat) {
    var d := if s.groupLock.Some? then s.Does(s.groupLock.value) else Nothing;
    && (b in s.members && Marked(s, b) ==> if d.Unsuspending? then b in d.todo || d.again else s.suspended || s.pending)
    && (b !in s.members && b in s.carrying ==> b in s.owner && s.Does(s.owner[b]) == Left(b))
  }

  lemma {:induction false} WithoutDistinct(l: seq<nat>, b: nat)
    requires Distinct(l)
    ensures Distinct(Without(l, b))
  {
    if l != [] {
      assert l == [l[0]] + l[1..];
      WithoutDistinct(l[1..], b);
      assert l[0] !in Without(l[1..], b);
    }
  }

  lemma {:induction false} OnceEach(l: seq<nat>, b: nat)
    requires Distinct(l)
    ensures multiset(l)[b] == if b in l then 1 else 0
  {
    if l != [] {
      assert l == [l[0]] + l[1..];
      OnceEach(l[1..], b);
    }
  }

  ghost predicate Inv(s: State) {
    && (s.pending ==> !s.suspended) && Distinct(s.members)
    && (forall t: nat :: Agrees(s, t))
    && (forall b: nat :: Cared(s, b))
  }

  lemma KeepsAgrees(s: State, t: nat, a: Action, u: nat)
    requires Inv(s) && Enabled(s, t, a)
    ensures Agrees(Step(s, t, a), u)
  {
    hide Inv, Enabled, Step, Agrees;
    if u != t {
      OthersAgree(s, t, a, u);
    } else if a.StartSuspending? || a.StartUnsuspending? || a.Visit? || a.EndPass? {
      PassAgrees(s, t, a);
    } else {
      OwnAgrees(s, t, a);
    }
  }

  lemma OthersAgree(s: State, t: nat, a: Action, u: nat)
    requires Inv(s) && Enabled(s, t, a) && u != t
    ensures Agrees(Step(s, t, a), u)
  {
    assert Agrees(s, t) && Agrees(s, u);
  }

  lemma PassAgrees(s: State, t: nat, a: Action)
    requires Inv(s) && Enabled(s, t, a) && (a.StartSuspending? || a.StartUnsuspending? || a.Visit? || a.EndPass?)
    ensures Agrees(Step(s, t, a), t)
  {
    assert Agrees(s, t);
    if a.StartUnsuspending? {
      RotatedOnce(s.members, a.which);
    } else if a.Visit? && s.Does(t).Unsuspending? {
      var d := s.Does(t);
      assert d.todo == [d.todo[0]] + d.todo[1..];
    }
  }

  lemma OwnAgrees(s: State, t: nat, a: Action)
    requires Inv(s) && Enabled(s, t, a) && !(a.StartSuspending? || a.StartUnsuspending? || a.Visit? || a.EndPass?)
    ensures Agrees(Step(s, t, a), t)
  {
    assert Agrees(s, t);
  }

  // What matters of a step for bufferevent b is whether it is marked, and the pass in progress.
  lemma KeepsCared(s: State, t: nat, a: Action, b: nat)
    requires Inv(s) && Enabled(s, t, a)
    ensures Cared(Step(s, t, a), b)
  {
    hide Inv, Enabled, Step, Cared;
    if a.Join? || a.Leave? {
      ListKeepsCared(s, t, a, b);
    } else if a.AfterJoin? || a.AfterLeave? || a.Look? {
      MemberKeepsCared(s, t, a, b);
    } else if a.StartSuspending? || a.StartUnsuspending? || a.Visit? || a.EndPass? {
      PassKeepsCared(s, t, a, b);
    } else {
      LockKeepsCared(s, t, a, b);
    }
  }

  lemma ListKeepsCared(s: State, t: nat, a: Action, b: nat)
    requires Inv(s) && Enabled(s, t, a) && (a.Join? || a.Leave?)
    ensures Cared(Step(s, t, a), b)
  {
    assert Agrees(s, t) && Cared(s, b);
    if b in s.owner {
      assert Agrees(s, s.owner[b]);
    }
    if s.groupLock.Some? {
      assert Agrees(s, s.groupLock.value);
    }
  }

  lemma MemberKeepsCared(s: State, t: nat, a: Action, b: nat)
    requires Inv(s) && Enabled(s, t, a) && (a.AfterJoin? || a.AfterLeave? || a.Look?)
    ensures Cared(Step(s, t, a), b)
  {
    assert Agrees(s, t) && Cared(s, b);
    if b in s.owner {
      assert Agrees(s, s.owner[b]);
    }
    if s.groupLock.Some? {
      assert Agrees(s, s.groupLock.value);
    }
  }

  lemma LockKeepsCared(s: State, t: nat, a: Action, b: nat)
    requires Inv(s) && Enabled(s, t, a) && (a.Lock? || a.Unlock? || a.LockGroup? || a.UnlockGroup?)
    ensures Cared(Step(s, t, a), b)
  {
    assert Agrees(s, t) && Cared(s, b);
    if b in s.owner {
      assert Agrees(s, s.owner[b]);
    }
    if s.groupLock.Some? {
      assert Agrees(s, s.groupLock.value);
    }
  }

  lemma PassKeepsCared(s: State, t: nat, a: Action, b: nat)
    requires Inv(s) && Enabled(s, t, a) && (a.StartSuspending? || a.StartUnsuspending? || a.Visit? || a.EndPass?)
    ensures Cared(Step(s, t, a), b)
  {
    hide Inv, Enabled, Step, Cared;
    if a.Visit? {
      VisitKeepsCared(s, t, a, b);
    } else {
      EndsKeepCared(s, t, a, b);
    }
  }

  lemma VisitKeepsCared(s: State, t: nat, a: Action, b: nat)
    requires Inv(s) && Enabled(s, t, a) && a.Visit?
    ensures Cared(Step(s, t, a), b)
  {
    assert Agrees(s, t) && Cared(s, b);
    if b in s.owner {
      assert Agrees(s, s.owner[b]);
    }
    assert s.Does(t).todo == [s.Does(t).todo[0]] + s.Does(t).todo[1..];
  }

  // The start and the end of a pass.
  lemma EndsKeepCared(s: State, t: nat, a: Action, b: nat)
    requires Inv(s) && Enabled(s, t, a) && (a.StartSuspending? || a.StartUnsuspending? || a.EndPass?)
    ensures Cared(Step(s, t, a), b)
  {
    assert Agrees(s, t) && Cared(s, b);
    if b in s.owner {
      assert Agrees(s, s.owner[b]);
    }
    if a.StartUnsuspending? {
      RotatedOnce(s.members, a.which);
      assert b in s.members ==> b in multiset(Rotated(s.members, a.which));
    }
  }

  lemma StepKeepsInv(s: State, t: nat, a: Action)
    requires Inv(s) && Enabled(s, t, a)
    ensures Inv(Step(s, t, a))
  {
    assert Agrees(s, t);
    if a.Leave? {
      WithoutDistinct(s.members, a.b);
    }
    forall u: nat ensures Agrees(Step(s, t, a), u) {
      KeepsAgrees(s, t, a, u);
    }
    forall b: nat ensures Cared(Step(s, t, a), b) {
      KeepsCared(s, t, a, b);
    }
  }

  // A group as bufferevent_rate_limit_group_new makes it.
  predicate Fresh(s: State) {
    s.groupLock.None? && !s.suspended && !s.pending && s.members == [] && s.owner == map[] && s.carrying == {} && s.doing == map[]
  }

  datatype Move = Move(thread: nat, action: Action)

  // Any threads, interleaved in any way.
  ghost predicate IsRun(states: seq<State>, moves: seq<Move>) {
    && |states| == |moves| + 1 && Fresh(states[0])
    && forall i :: 0 <= i < |moves| ==>
         Enabled(states[i], moves[i].thread, moves[i].action) && states[i + 1] == Step(states[i], moves[i].thread, moves[i].action)
  }

  lemma {:induction false} AlwaysInv(states: seq<State>, moves: seq<Move>, i: nat)
    requires IsRun(states, moves) && i < |states|
    ensures Inv(states[i])
  {
    if i > 0 {
      AlwaysInv(states, moves, i - 1);
      StepKeepsInv(states[i - 1], moves[i - 1].thread, moves[i - 1].action);
    }
  }

  predicate Releasing(s: State) {
    s.groupLock.Some? && s.Does(s.groupLock.value).Unsuspending?
  }

  // In every state of every run: a release is pending only while the group is not suspended, and
  // outside a pass a member that carries the suspension is in a suspended group, or its release is pending.
  lemma NoneForgotten(states: seq<State>, moves: seq<Move>, i: nat, b: nat)
    requires IsRun(states, moves) && i < |states|
    ensures states[i].pending ==> !states[i].suspended
    ensures b in states[i].members && b in states[i].carrying && !Releasing(states[i]) ==> states[i].suspended || states[i].pending
  {
    AlwaysInv(states, moves, i);
    assert Cared(states[i], b);
  }

  // Every pass that ends has visited every member exactly once, and nothing else.
  lemma AllVisited(states: seq<State>, moves: seq<Move>, i: nat)
    requires IsRun(states, moves) && i < |moves| && moves[i].action.EndPass? && states[i].Does(moves[i].thread).Unsuspending?
    ensures var visited, members := states[i].Does(moves[i].thread).visited, states[i].members;
      && Distinct(members) && multiset(visited) == multiset(members)
      && forall b :: multiset(visited)[b] == if b in members then 1 else 0
  {
    AlwaysInv(states, moves, i);
    assert Agrees(states[i], moves[i].thread);
    forall b: nat ensures multiset(states[i].members)[b] == if b in states[i].members then 1 else 0 {
      OnceEach(states[i].members, b);
    }
  }

  // The rest of a pass, when no other thread gets in between.
  ghost function Finish(s: State, t: nat): State
    requires s.Does(t).Unsuspending?
    decreases |s.Does(t).todo|
  {
    if s.Does(t).todo == [] then Step(s, t, EndPass) else Finish(Step(s, t, Visit), t)
  }

  lemma {:induction false} FinishExact(s: State, t: nat)
    requires s.Does(t).Unsuspending?
    ensures var f, todo := Finish(s, t), s.Does(t).todo;
      && (forall b :: b in f.carrying <==> b in s.carrying && !(b in todo && s.CanLock(t, b)))
      && (f.pending <==> s.Does(t).again || exists b :: b in todo && !s.CanLock(t, b))
      && f.suspended == s.suspended && f.members == s.members
    decreases |s.Does(t).todo|
  {
    var todo := s.Does(t).todo;
    if todo != [] {
      var n := Step(s, t, Visit);
      assert forall b :: b in todo <==> b == todo[0] || b in todo[1..] by {
        assert todo == [todo[0]] + todo[1..];
      }
      assert n.Does(t).todo == todo[1..] && n.Does(t).Unsuspending?;
      FinishExact(n, t);
      assert forall b :: s.CanLock(t, b) <==> n.CanLock(t, b);
    } else {
      assert Finish(s, t) == Step(s, t, EndPass);
      assert forall b :: b !in todo;
    }
  }

  // bev_group_unsuspend_reading_ releases exactly the members it can lock, and leaves a release
  // pending exactly when there are others.
  lemma ReleaseExact(s: State, t: nat, which: nat)
    requires s.Does(t).InGroup?
    ensures var f := Finish(Step(s, t, StartUnsuspending(which)), t);
      && (forall b :: b in f.carrying <==> b in s.carrying && !(b in s.members && (b in s.owner ==> s.owner[b] == t)))
      && (f.pending <==> exists b :: b in s.members && b in s.owner && s.owner[b] != t)
      && !f.suspended && f.members == s.members
  {
    RotatedOnce(s.members, which);
    assert forall b :: b in Rotated(s.members, which) <==> b in multiset(Rotated(s.members, which));
    assert forall b :: b in s.members <==> b in multiset(s.members);
    FinishExact(Step(s, t, StartUnsuspending(which)), t);
  }

  // The rest of a suspending pass, when no other thread gets in between.
  ghost function FinishSuspending(s: State, t: nat): State
    requires s.Does(t).Suspending?
    decreases |s.Does(t).todo|
  {
    if s.Does(t).todo == [] then Step(s, t, EndPass) else FinishSuspending(Step(s, t, Visit), t)
  }

  lemma {:induction false} FinishSuspendingExact(s: State, t: nat)
    requires s.Does(t).Suspending?
    ensures var f, todo := FinishSuspending(s, t), s.Does(t).todo;
      && (forall b :: b in f.carrying <==> b in s.carrying || (b in todo && s.CanLock(t, b)))
      && f.pending == s.pending && f.suspended == s.suspended && f.members == s.members && f.Does(t).InGroup?
    decreases |s.Does(t).todo|
  {
    var todo := s.Does(t).todo;
    if todo != [] {
      var n := Step(s, t, Visit);
      assert forall b :: b in todo <==> b == todo[0] || b in todo[1..] by {
        assert todo == [todo[0]] + todo[1..];
      }
      assert n.Does(t).todo == todo[1..] && n.Does(t).Suspending?;
      FinishSuspendingExact(n, t);
      assert forall b :: s.CanLock(t, b) <==> n.CanLock(t, b);
    } else {
      assert FinishSuspending(s, t) == Step(s, t, EndPass);
      assert forall b :: b !in todo;
    }
  }

  // bev_group_suspend_reading_ suspends the group and exactly the members it can lock, and takes back a
  // pending release.
  lemma SuspendExact(s: State, t: nat)
    requires s.Does(t).InGroup?
    ensures var f := FinishSuspending(Step(s, t, StartSuspending), t);
      && (forall b :: b in f.carrying <==> b in s.carrying || (b in s.members && (b in s.owner ==> s.owner[b] == t)))
      && f.suspended && !f.pending && f.members == s.members
  {
    FinishSuspendingExact(Step(s, t, StartSuspending), t);
  }

  // While thread t is in a suspending pass, what other threads do leaves the members, the suspension and the
  // pass as they are, and takes no suspension from a member.
  lemma PassUndisturbed(s: State, t: nat, u: nat, a: Action)
    requires Inv(s) && Enabled(s, u, a) && s.Does(t).Suspending? && !(u == t && (a.Visit? || a.EndPass?))
    ensures var n := Step(s, u, a);
      n.Does(t) == s.Does(t) && n.members == s.members && n.suspended == s.suspended && n.pending == s.pending
      && forall b :: b in s.members && b in s.carrying ==> b in n.carrying
  {
    assert Agrees(s, t) && Agrees(s, u);
  }

  lemma VisitKeeps(s: State, t: nat)
    requires Enabled(s, t, Visit) && s.Does(t).Suspending?
    ensures var n := Step(s, t, Visit);
      n.Does(t) == Suspending(s.Does(t).todo[1..]) && n.members == s.members && n.suspended == s.suspended && n.pending == s.pending
      && (forall b :: b in s.carrying ==> b in n.carrying) && (s.CanLock(t, s.Does(t).todo[0]) ==> s.Does(t).todo[0] in n.carrying)
  {
  }

  // From a state in the middle of a suspending pass to its end, where `done` is whether b has been visited, and
  // could be locked: whoever carried the suspension still does, and a member still to do is visited.
  lemma {:induction false} RestOfPass(states: seq<State>, moves: seq<Move>, i: nat, j: nat, t: nat, b: nat)
    requires IsRun(states, moves) && i <= j < |moves| && moves[j] == Move(t, EndPass) && states[i].Does(t).Suspending?
    requires forall k :: i <= k < j ==> moves[k] != Move(t, EndPass)
    requires b in states[i].members
    ensures b in states[i].carrying ==> b in states[j + 1].carrying
    ensures states[j + 1].suspended && states[j + 1].pending == states[i].pending
    ensures b in states[i].Does(t).todo ==>
      exists k :: i <= k < j && Visits(states[k], moves[k], t, b) && (states[k].CanLock(t, b) ==> b in states[j + 1].carrying)
    decreases j - i
  {
    AlwaysInv(states, moves, i);
    assert Agrees(states[i], t);
    var s, n, m := states[i], states[i + 1], moves[i];
    assert n == Step(s, m.thread, m.action);
    if i < j {
      if m == Move(t, Visit) {
        VisitKeeps(s, t);
        RestOfPass(states, moves, i + 1, j, t, b);
        assert s.Does(t).todo == [s.Does(t).todo[0]] + n.Does(t).todo;
        if b == s.Does(t).todo[0] {
          assert Visits(states[i], moves[i], t, b);
        }
      } else {
        PassUndisturbed(s, t, m.thread, m.action);
        RestOfPass(states, moves, i + 1, j, t, b);
      }
    }
  }

  // Thread t visits b in a suspending pass.
  predicate Visits(s: State, m: Move, t: nat, b: nat) {
    m == Move(t, Visit) && s.Does(t).Suspending? && s.Does(t).todo != [] && s.Does(t).todo[0] == b
  }

  // In any interleaving, a suspending pass visits every member, and at its end the group is suspended, with no
  // release pending, and every member carries the suspension that could be locked when it was visited, or that
  // carried it before.
  lemma AllSuspended(states: seq<State>, moves: seq<Move>, i: nat, j: nat, t: nat, b: nat)
    requires IsRun(states, moves) && i < j < |moves| && moves[i] == Move(t, StartSuspending) && moves[j] == Move(t, EndPass)
    requires (forall k :: i < k < j ==> moves[k] != Move(t, EndPass)) && b in states[i].members
    ensures states[j + 1].suspended && !states[j + 1].pending
    ensures b in states[i].carrying ==> b in states[j + 1].carrying
    ensures exists k :: i < k < j && Visits(states[k], moves[k], t, b) &&
                        ((b in states[k].owner ==> states[k].owner[b] == t) ==> b in states[j + 1].carrying)
  {
    assert states[i + 1] == Step(states[i], t, StartSuspending);
    RestOfPass(states, moves, i + 1, j, t, b);
  }

  // Nobody touches the suspension of a bufferevent whose lock another thread has.
  lemma LocksRespected(states: seq<State>, moves: seq<Move>, i: nat, b: nat)
    requires IsRun(states, moves) && i < |moves| && (b in states[i].carrying) != (b in states[i + 1].carrying)
    ensures b in states[i].owner ==> states[i].owner[b] == moves[i].thread
  {
    AlwaysInv(states, moves, i);
    assert Agrees(states[i], moves[i].thread);
    assert states[i + 1] == Step(states[i], moves[i].thread, moves[i].action);
  }

  // A member that finds its group suspended when it looks at its limit carries the suspension.
  lemma LookSuspends(states: seq<State>, moves: seq<Move>, i: nat, b: nat)
    requires IsRun(states, moves) && i < |moves| && moves[i].action == Look(b) && states[i].suspended
    ensures b in states[i + 1].members && b in states[i + 1].carrying
  {
    assert states[i + 1] == Step(states[i], moves[i].thread, moves[i].action);
  }

  // One that has joined a suspended group carries it when it has been added.
  lemma {:induction false} JoinedSuspended(states: seq<State>, moves: seq<Move>, i: nat, j: nat, t: nat, b: nat)
    requires IsRun(states, moves) && i < j < |moves| && moves[i] == Move(t, Join(b)) && moves[j] == Move(t, AfterJoin) && states[i].suspended
    requires forall k :: i < k < j ==> moves[k] != Move(t, AfterJoin)
    ensures b in states[j + 1].members && b in states[j + 1].carrying
  {
    StillJoined(states, moves, i, j, t, b);
    AlwaysInv(states, moves, j);
    assert Agrees(states[j], t);
    assert states[j + 1] == Step(states[j], t, AfterJoin);
  }

  lemma JoinedStays(s: State, t: nat, u: nat, a: Action)
    requires Enabled(s, u, a) && s.Does(t).Joined? && !(u == t && a.AfterJoin?)
    ensures Step(s, u, a).Does(t) == s.Does(t)
  {
  }

  lemma {:induction false} StillJoined(states: seq<State>, moves: seq<Move>, i: nat, j: nat, t: nat, b: nat)
    requires IsRun(states, moves) && i < j < |moves| && moves[i] == Move(t, Join(b)) && states[i].suspended
    requires forall k :: i < k < j ==> moves[k] != Move(t, AfterJoin)
    ensures states[j].Does(t) == Joined(b, true)
    decreases j - i
  {
    assert states[j] == Step(states[j - 1], moves[j - 1].thread, moves[j - 1].action);
    if i + 1 < j {
      StillJoined(states, moves, i, j - 1, t, b);
      hide Step;
      JoinedStays(states[j - 1], t, moves[j - 1].thread, moves[j - 1].action);
    }
  }

  // One that has left carries nothing of the group.
  lemma LeftReleased(states: seq<State>, moves: seq<Move>, i: nat)
    requires IsRun(states, moves) && i < |moves| && moves[i].action.AfterLeave?
    ensures var d := states[i].Does(moves[i].thread); d.Left? && d.b !in states[i + 1].carrying && d.b !in states[i + 1].members
  {
    AlwaysInv(states, moves, i);
    assert Agrees(states[i], moves[i].thread);
    assert states[i + 1] == Step(states[i], moves[i].thread, moves[i].action);
  }
}
