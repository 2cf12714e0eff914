/** Every run of the session store: the counters stay exact, the cap holds, and an
    administrator remains. */
module SessionRuns {

  import opened Wrappers
  import opened Sessions

  /** `pending` holds the expired tokens that some validation has read but not yet dropped. */
  datatype System = System(state: State, pending: set<(TokenId, User)>)

  datatype Step =
    | Login(u: User, k: TokenId, token: Token, victim: Option<TokenId>)
    | ReadExpired(k: TokenId, now: int)
    | DropExpired(k: TokenId, owner: User)
    | Revoke(k: TokenId)
    | RevokeAll(u: User)
    | Create(u: User, account: Account)
    | Update(u: User, newPassword: bool, role: Option<Role>, now: int)
    | DeletePreserving(u: User)
    | Delete(u: User)
    | Load(tokens: map<TokenId, Token>, counts: map<User, int>)

  /** Tokens are random: one that is issued is not in use, and a token string is never issued
      to two users, so that each has an owner.  A loaded file holds tokens of this store. */
  ghost predicate Enabled(owner: TokenId -> User, cap: int, s: System, step: Step, t: System) {
    match step
    case Login(u, k, token, victim) =>
      u in s.state.users && k !in s.state.tokens && owner(k) == u == token.username
      && Generated(s.state, cap, u, k, token, victim, t.state)
    case ReadExpired(k, now) => k in s.state.tokens && ExpiredAt(s.state.tokens[k], now)
    case DropExpired(k, u) => (k, u) in s.pending
    case Create(u, _) => u !in s.state.users
    case Update(u, _, role, _) =>
      u in s.state.users && !(OnlyAdmin(s.state.users, u) && role.Some? && !role.value.Admin?)
    case DeletePreserving(u) => u in s.state.users && !OnlyAdmin(s.state.users, u)
    case Delete(u) => u in s.state.users
    case Load(tokens, counts) => Counted(counts, tokens) && forall k :: k in tokens ==> tokens[k].username == owner(k)
    case _ => true
  }

  ghost function After(cap: int, s: State, step: Step): State
    requires step.Update? ==> step.u in s.users
    requires !step.Login?
  {
    match step
    case DropExpired(k, u) => ExpiryDropped(s, k, u)
    case Revoke(k) => Revoked(s, cap, k)
    case RevokeAll(u) => AllRevoked(s, u)
    case Create(u, a) => s.(users := s.users[u := a])
    case Update(u, p, r, now) => UserUpdated(s, u, p, r, now)
    case DeletePreserving(u) => UserDeleted(s, u)
    case Delete(u) => UserDeleted(s, u)
    case Load(tokens, counts) => s.(tokens := tokens, active := counts)
    case ReadExpired(_, _) => s
  }

  ghost predicate Next(owner: TokenId -> User, cap: int, s: System, step: Step, t: System) {
    && Enabled(owner, cap, s, step, t)
    && (!step.Login? ==> t.state == After(cap, s.state, step))
    && t.pending == s.pending + if step.ReadExpired? then {(step.k, s.state.tokens[step.k].username)} else {}
  }

  ghost predicate IsRun(owner: TokenId -> User, cap: int, states: seq<System>, steps: seq<Step>) {
    && |states| == |steps| + 1
    && states[0].state.tokens == map[] && states[0].state.active == map[] && states[0].pending == {}
    && forall i :: 0 <= i < |steps| ==> Next(owner, cap, states[i], steps[i], states[i + 1])
  }

  // --- Counters

  /** Stored and pending tokens belong to their owners. */
  ghost predicate Owned(owner: TokenId -> User, s: System) {
    && (forall k :: k in s.state.tokens ==> s.state.tokens[k].username == owner(k))
    && forall k, u :: (k, u) in s.pending ==> u == owner(k)
  }

  lemma OwnedByStep(owner: TokenId -> User, cap: int, s: System, step: Step, t: System)
    requires Owned(owner, s) && Next(owner, cap, s, step, t)
    ensures Owned(owner, t)
  {
    hide TokensOf, MayEvict;
  }

  lemma LoginCounted(s: State, cap: int, u: User, k: TokenId, token: Token, victim: Option<TokenId>, t: State)
    requires cap > 0 && Counted(s.active, s.tokens) && k !in s.tokens && token.username == u
    requires Generated(s, cap, u, k, token, victim, t)
    ensures Counted(t.active, t.tokens)
  {
    hide TokensOf, Counted;
    if victim.Some? {
      VictimOwned(s, u, victim.value);
      TokenRemoved(s.tokens, s.active, victim.value);
      TokenAdded(s.tokens - {victim.value}, Decremented(s.active, u), k, token);
    } else {
      TokenAdded(s.tokens, s.active, k, token);
    }
  }

  lemma VictimOwned(s: State, u: User, k: TokenId)
    requires k in TokensOf(s.tokens, u)
    ensures k in s.tokens && s.tokens[k].username == u
  {
  }

  lemma CountedByStep(owner: TokenId -> User, cap: int, s: System, step: Step, t: System)
    requires cap > 0 && Owned(owner, s) && Counted(s.state.active, s.state.tokens) && Next(owner, cap, s, step, t)
    ensures Counted(t.state.active, t.state.tokens)
  {
    hide TokensOf, Counted, Generated, MayEvict, OthersOf, Decremented;
    var tokens, active := s.state.tokens, s.state.active;
    match step
    case Login(u, k, token, victim) => LoginCounted(s.state, cap, u, k, token, victim, t.state);
    case DropExpired(k, u) => if k in tokens { TokenRemoved(tokens, active, k); }
    case Revoke(k) => if k in tokens { TokenRemoved(tokens, active, k); }
    case RevokeAll(u) => TokensDropped(tokens, active, u);
    case Update(u, _, _, _) => TokensDropped(tokens, active, u);
    case DeletePreserving(u) => TokensDropped(tokens, active, u);
    case Delete(u) => TokensDropped(tokens, active, u);
    case _ =>
  }

  /** With a positive cap the counter of every user is, at every moment of every run, the
      number of its stored tokens. */
  lemma {:induction false} CountersExact(owner: TokenId -> User, cap: int, states: seq<System>, steps: seq<Step>, i: nat)
    requires cap > 0 && IsRun(owner, cap, states, steps) && i < |states|
    ensures Owned(owner, states[i]) && Counted(states[i].state.active, states[i].state.tokens)
  {
    hide Counted, Next;
    if i > 0 {
      CountersExact(owner, cap, states, steps, i - 1);
      assert Next(owner, cap, states[i - 1], steps[i - 1], states[i]);
      OwnedByStep(owner, cap, states[i - 1], steps[i - 1], states[i]);
      CountedByStep(owner, cap, states[i - 1], steps[i - 1], states[i]);
    } else {
      EmptyTable();
    }
  }

  /** The counters are exact in every run just when there is a cap. */
  lemma ExactOnlyWithCap(cap: int)
    ensures cap > 0 <==> forall owner, states, steps :: IsRun(owner, cap, states, steps) ==> AlwaysCounted(states)
  {
    hide Counted, Next;
    if cap > 0 {
      forall owner, states: seq<System>, steps | IsRun(owner, cap, states, steps) ensures AlwaysCounted(states) {
        forall i | 0 <= i < |states| ensures Counted(states[i].state.active, states[i].state.tokens) {
          CountersExact(owner, cap, states, steps, i);
        }
      }
    } else {
      var owner, states, steps := UncountedLogin(cap);
      assert !AlwaysCounted(states);
    }
  }

  ghost predicate AlwaysCounted(states: seq<System>) {
    forall i :: 0 <= i < |states| ==> Counted(states[i].state.active, states[i].state.tokens)
  }

  /** Without a cap a login is stored but not counted. */
  lemma UncountedLogin(cap: int) returns (owner: TokenId -> User, states: seq<System>, steps: seq<Step>)
    requires cap <= 0
    ensures IsRun(owner, cap, states, steps) && |states| == 2
    ensures !Counted(states[1].state.active, states[1].state.tokens)
  {
    owner := (k: TokenId) => 1;
    var before := State(map[1 := Account(Viewer, None)], map[], map[]);
    var after := before.(tokens := map[1 := Token(1, 1, 2)]);
    states, steps := [System(before, {}), System(after, {})], [Login(1, 1, Token(1, 1, 2), None)];
    assert Generated(before, cap, 1, 1, Token(1, 1, 2), None, after);
    assert 1 in TokensOf(after.tokens, 1) && Count(after.active, 1) == 0;
  }

  // --- The cap

  /** A login evicts exactly when the user's stored tokens have reached the cap, then exactly
      one of them, an oldest unless only some of the user's tokens have the zero creation time
      and none is older; no other user's tokens change, and the user ends at most at the cap or
      where it was. */
  lemma LoginWithinCap(owner: TokenId -> User, cap: int, states: seq<System>, steps: seq<Step>, i: nat)
    requires cap > 0 && IsRun(owner, cap, states, steps) && i < |steps| && steps[i].Login?
    ensures var u, victim, before, after := steps[i].u, steps[i].victim, states[i].state.tokens, states[i + 1].state.tokens;
            && (victim.Some? <==> |TokensOf(before, u)| >= cap)
            && (victim.Some? ==> MayEvict(before, u, victim.value))
            && (victim.Some? && ClearOldest(before, u) ==> IsOldest(before, u, victim.value))
            && TokensOf(after, u) == TokensOf(before, u) - (if victim.Some? then {victim.value} else {}) + {steps[i].k}
            && (|TokensOf(after, u)| <= cap || |TokensOf(after, u)| <= |TokensOf(before, u)|)
            && forall other :: other != u ==> TokensOf(after, other) == TokensOf(before, other)
  {
    CountersExact(owner, cap, states, steps, i);
    CountersExact(owner, cap, states, steps, i + 1);
    assert Next(owner, cap, states[i], steps[i], states[i + 1]);
    LoginTokens(cap, states[i].state, steps[i], states[i + 1].state);
    if steps[i].victim.Some? && ClearOldest(states[i].state.tokens, steps[i].u) {
      ClearIsFound(states[i].state.tokens, steps[i].u, steps[i].victim.value);
    }
  }

  /** A run in which a login evicts the newer of two tokens: both come from a file, one with
      the zero creation time. */
  lemma NewerEvictedInRun() returns (owner: TokenId -> User, states: seq<System>, steps: seq<Step>)
    ensures IsRun(owner, 2, states, steps) && |steps| == 2 && steps[1].Login? && steps[1].victim.Some?
    ensures !IsOldest(states[1].state.tokens, steps[1].u, steps[1].victim.value)
  {
    hide TokensOf, MayEvict, Chosen, Counted, IsOldest;
    owner := (k: TokenId) => 7;
    var loaded := map[1 := Token(7, 0, 9), 2 := Token(7, 5, 9)];
    var s0 := State(map[7 := Account(Viewer, None)], map[], map[]);
    var s1 := State(s0.users, loaded, map[7 := 2]);
    var s2 := State(s0.users, map[1 := Token(7, 0, 9), 3 := Token(7, 6, 9)], map[7 := 2]);
    steps := [Load(loaded, map[7 := 2]), Login(7, 3, Token(7, 6, 9), Some(2))];
    states := [System(s0, {}), System(s1, {}), System(s2, {})];
    NewerEvicted();
    TwoLoaded(loaded);
    assert s2.tokens == (loaded - {2})[3 := Token(7, 6, 9)];
    assert Generated(s1, 2, 7, 3, Token(7, 6, 9), Some(2), s2);
    assert Next(owner, 2, states[0], steps[0], states[1]);
    assert Next(owner, 2, states[1], steps[1], states[2]);
  }

  lemma TwoLoaded(loaded: map<TokenId, Token>)
    requires loaded == map[1 := Token(7, 0, 9), 2 := Token(7, 5, 9)]
    ensures TokensOf(loaded, 7) == {1, 2} && Counted(map[7 := 2], loaded)
  {
    assert TokensOf(loaded, 7) == {1, 2};
    forall u: User | u != 7 ensures |TokensOf(loaded, u)| == 0 {
      assert TokensOf(loaded, u) == {};
    }
  }

  lemma LoginTokens(cap: int, s: State, step: Step, t: State)
    requires cap > 0 && step.Login? && Counted(s.active, s.tokens) && step.k !in s.tokens && step.token.username == step.u
    requires Generated(s, cap, step.u, step.k, step.token, step.victim, t)
    ensures step.victim.Some? <==> |TokensOf(s.tokens, step.u)| >= cap
    ensures step.victim.Some? ==> MayEvict(s.tokens, step.u, step.victim.value)
    ensures TokensOf(t.tokens, step.u) ==
              TokensOf(s.tokens, step.u) - (if step.victim.Some? then {step.victim.value} else {}) + {step.k}
    ensures |TokensOf(t.tokens, step.u)| <= cap || |TokensOf(t.tokens, step.u)| <= |TokensOf(s.tokens, step.u)|
    ensures forall other :: other != step.u ==> TokensOf(t.tokens, other) == TokensOf(s.tokens, other)
  {
    hide TokensOf, MayEvict;
    var u := step.u;
    assert Count(s.active, u) == |TokensOf(s.tokens, u)|;
    if step.victim.Some? {
      VictimOwned(s, u, step.victim.value);
      ReplacedFor(s.tokens, step.victim.value, step.k, step.token, u);
      forall other | other != u ensures TokensOf(t.tokens, other) == TokensOf(s.tokens, other) {
        ReplacedFor(s.tokens, step.victim.value, step.k, step.token, other);
      }
    } else {
      forall other ensures TokensOf(t.tokens, other) == if other == u then TokensOf(s.tokens, u) + {step.k} else TokensOf(s.tokens, other)
      {
        AddedFor(s.tokens, step.k, step.token, other);
      }
      AddedFor(s.tokens, step.k, step.token, u);
    }
  }

  lemma ReplacedFor(tokens: map<TokenId, Token>, victim: TokenId, k: TokenId, t: Token, u: User)
    requires victim in tokens && k !in tokens && tokens[victim].username == t.username
    ensures TokensOf((tokens - {victim})[k := t], u) ==
              if u == t.username then TokensOf(tokens, u) - {victim} + {k} else TokensOf(tokens, u)
    ensures |TokensOf((tokens - {victim})[k := t], u)| == |TokensOf(tokens, u)|
  {
    hide TokensOf;
    RemovedFor(tokens, victim, u);
    AddedFor(tokens - {victim}, k, t, u);
  }

  // --- What goes, and what stays

  /** The step takes the stored token k away: the drop of the expired token, its revocation, the
      revocation of its user's tokens, a new password or another role of its user, or the
      deletion of its user. */
  predicate Removes(s: State, step: Step, k: TokenId)
    requires k in s.tokens
  {
    var u := s.tokens[k].username;
    match step
    case DropExpired(gone, _) => gone == k
    case Revoke(gone) => gone == k
    case RevokeAll(gone) => gone == u
    case Update(changed, newPassword, role, _) =>
      changed == u && u in s.users && (newPassword || (role.Some? && role.value != s.users[u].role))
    case DeletePreserving(gone) => gone == u
    case Delete(gone) => gone == u
    case _ => false
  }

  /** Every step but a login and a load removes exactly those tokens and leaves the others as
      they are. */
  lemma RemovesExactly(owner: TokenId -> User, cap: int, s: System, step: Step, t: System, k: TokenId)
    requires Next(owner, cap, s, step, t) && !step.Login? && !step.Load?
    ensures k in t.state.tokens <==> k in s.state.tokens && !Removes(s.state, step, k)
    ensures k in t.state.tokens ==> t.state.tokens[k] == s.state.tokens[k]
  {
    hide TokensOf, Counted, MayEvict, Generated, OnlyAdmin;
  }

  /** What a login stores is the token it returns; a load stores the tokens it was given. */
  lemma StoresExactly(owner: TokenId -> User, cap: int, s: System, step: Step, t: System, k: TokenId)
    requires Next(owner, cap, s, step, t) && (step.Login? || step.Load?)
    ensures step.Login? ==>
              && step.k in t.state.tokens && t.state.tokens[step.k] == step.token
              && (k != step.k ==> (k in t.state.tokens <==> k in s.state.tokens && step.victim != Some(k)))
              && (k != step.k && k in t.state.tokens ==> t.state.tokens[k] == s.state.tokens[k])
    ensures step.Load? ==> t.state.tokens == step.tokens
  {
    hide TokensOf, Counted, MayEvict;
  }

  /** A token that has been taken away stays away until it is issued or loaded again. */
  lemma {:induction false} StaysRemoved(
    owner: TokenId -> User, cap: int, states: seq<System>, steps: seq<Step>, i: nat, j: nat, k: TokenId)
    requires IsRun(owner, cap, states, steps) && i < j < |states|
    requires k in states[i].state.tokens && Removes(states[i].state, steps[i], k)
    requires forall m :: i < m < j ==> !steps[m].Load? && (steps[m].Login? ==> steps[m].k != k)
    ensures k !in states[j].state.tokens
  {
    hide Next, Removes;
    assert Next(owner, cap, states[j - 1], steps[j - 1], states[j]);
    if i < j - 1 {
      StaysRemoved(owner, cap, states, steps, i, j - 1, k);
      if steps[j - 1].Login? {
        StoresExactly(owner, cap, states[j - 1], steps[j - 1], states[j], k);
      } else {
        RemovesExactly(owner, cap, states[j - 1], steps[j - 1], states[j], k);
      }
    } else {
      RemovalStep(states[i].state, steps[i], k);
      RemovesExactly(owner, cap, states[i], steps[i], states[j], k);
    }
  }

  lemma RemovalStep(s: State, step: Step, k: TokenId)
    requires k in s.tokens && Removes(s, step, k)
    ensures !step.Login? && !step.Load?
  {
  }

  /** With a cap, revoking or dropping a stored token takes one from its user's counter and
      nothing from the others'. */
  lemma CountsDown(owner: TokenId -> User, cap: int, states: seq<System>, steps: seq<Step>, i: nat, u: User)
    requires cap > 0 && IsRun(owner, cap, states, steps) && i < |steps| && (steps[i].Revoke? || steps[i].DropExpired?)
    requires steps[i].k in states[i].state.tokens
    ensures Count(states[i + 1].state.active, u) ==
              Count(states[i].state.active, u) - if u == states[i].state.tokens[steps[i].k].username then 1 else 0
  {
    hide TokensOf, MayEvict, Generated;
    CountersExact(owner, cap, states, steps, i);
    CountersExact(owner, cap, states, steps, i + 1);
    assert Next(owner, cap, states[i], steps[i], states[i + 1]);
    RemovedFor(states[i].state.tokens, steps[i].k, u);
    assert Count(states[i].state.active, u) == |TokensOf(states[i].state.tokens, u)|;
    assert Count(states[i + 1].state.active, u) == |TokensOf(states[i + 1].state.tokens, u)|;
  }

  /** What happens to the accounts: creation, update and deletion change the one they name, and
      nothing else changes any. */
  lemma AccountsExactly(owner: TokenId -> User, cap: int, s: System, step: Step, t: System, u: User)
    requires Next(owner, cap, s, step, t)
    ensures match step
            case Create(v, account) =>
              if u == v then u in t.state.users && t.state.users[u] == account else SameAccount(s, t, u)
            case Update(v, _, role, now) =>
              if u == v then && u in t.state.users && t.state.users[u].updatedAt == Some(now)
                             && t.state.users[u].role == if role.Some? then role.value else s.state.users[u].role
              else SameAccount(s, t, u)
            case DeletePreserving(v) => if u == v then u !in t.state.users else SameAccount(s, t, u)
            case Delete(v) => if u == v then u !in t.state.users else SameAccount(s, t, u)
            case _ => SameAccount(s, t, u)
  {
    hide TokensOf, Counted, MayEvict, OthersOf;
  }

  predicate SameAccount(s: System, t: System, u: User) {
    (u in s.state.users <==> u in t.state.users) && (u in s.state.users ==> t.state.users[u] == s.state.users[u])
  }

  // --- Expiry in two phases

  /** Dropping an expired token a second time, by a validation that read it before it was
      gone, changes nothing: the counter goes down once. */
  lemma {:induction false} DroppedTwice(owner: TokenId -> User, cap: int, states: seq<System>, steps: seq<Step>, i: nat, j: nat)
    requires IsRun(owner, cap, states, steps) && i < j < |steps| && steps[i].DropExpired? && steps[j].DropExpired?
    requires steps[i].k == steps[j].k
    requires forall m :: i < m < j ==> !steps[m].Load? && (steps[m].Login? ==> steps[m].k != steps[i].k)
    ensures states[j + 1].state == states[j].state
  {
    StaysGone(owner, cap, states, steps, i, j);
    assert Next(owner, cap, states[j], steps[j], states[j + 1]);
  }

  lemma {:induction false} StaysGone(owner: TokenId -> User, cap: int, states: seq<System>, steps: seq<Step>, i: nat, j: nat)
    requires IsRun(owner, cap, states, steps) && i < j < |states| && steps[i].DropExpired?
    requires forall m :: i < m < j ==> !steps[m].Load? && (steps[m].Login? ==> steps[m].k != steps[i].k)
    ensures steps[i].k !in states[j].state.tokens
  {
    hide TokensOf, MayEvict, Counted;
    assert Next(owner, cap, states[j - 1], steps[j - 1], states[j]);
    if i < j - 1 {
      StaysGone(owner, cap, states, steps, i, j - 1);
    }
  }

  // --- Administrators

  /** As long as accounts are deleted through the guarded path, an administrator remains. */
  lemma {:induction false} AdminRemains(owner: TokenId -> User, cap: int, states: seq<System>, steps: seq<Step>, i: nat)
    requires IsRun(owner, cap, states, steps) && i < |states| && Admins(states[0].state.users) != {}
    requires forall m :: 0 <= m < i ==> !steps[m].Delete?
    ensures Admins(states[i].state.users) != {}
  {
    hide Admins;
    if i > 0 {
      AdminRemains(owner, cap, states, steps, i - 1);
      assert Next(owner, cap, states[i - 1], steps[i - 1], states[i]);
      AdminKeptByStep(owner, cap, states[i - 1], steps[i - 1], states[i]);
    }
  }

  lemma AdminKeptByStep(owner: TokenId -> User, cap: int, s: System, step: Step, t: System)
    requires Next(owner, cap, s, step, t) && !step.Delete? && Admins(s.state.users) != {}
    ensures Admins(t.state.users) != {}
  {
    hide TokensOf, Counted, MayEvict, OthersOf;
    var a :| a in Admins(s.state.users);
    if (step.Update? || step.DeletePreserving?) && step.u == a {
      if b :| b in Admins(s.state.users) && b != a {
        assert b in Admins(t.state.users);
      } else {
        assert Admins(s.state.users) == {a};
        assert step.Update? ==> a in Admins(t.state.users);
      }
    } else {
      assert a in Admins(t.state.users);
    }
  }
}
