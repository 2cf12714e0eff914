/** The session store: tokens, the per-user session counter kept beside them, and what both
    look like after any interleaving of logins, two-phase expiry, revocation, user changes
    and bulk loads. */
module Sessions {

  import opened Orders
  import opened Wrappers

  /** Names and tokens are strings in the source; only equality and the empty string, 0
      here, matter.  Times are instants; 0 is the zero time that the source uses as a
      sentinel. */
  type User = nat
  type TokenId = nat
  const EMPTY: nat := 0
  const ZERO_TIME := 0

  datatype Role = Admin | Operator | Viewer

  /** `updatedAt` is missing when the stored stamp is empty or does not parse. */
  datatype Account = Account(role: Role, updatedAt: Option<int>)

  datatype Token = Token(username: User, created: int, expires: int)

  predicate ExpiredAt(t: Token, now: int) {
    now >= t.expires
  }

  datatype State = State(users: map<User, Account>, tokens: map<TokenId, Token>, active: map<User, int>)

  function Count(active: map<User, int>, u: User): int {
    if u in active then active[u] else 0
  }

  ghost function TokensOf(tokens: map<TokenId, Token>, u: User): set<TokenId> {
    set k | k in tokens && tokens[k].username == u
  }

  /** The counter of every user is the number of its stored tokens. */
  ghost predicate Counted(counts: map<User, int>, tokens: map<TokenId, Token>) {
    forall u: User :: Count(counts, u) == |TokensOf(tokens, u)|
  }

  // --- The operations on values

  function Decremented(active: map<User, int>, u: User): map<User, int> {
    if Count(active, u) > 0 then active[u := Count(active, u) - 1] else active
  }

  /** The write-locked half of validating an expired token, which the first half read as
      belonging to `u`. */
  function ExpiryDropped(s: State, k: TokenId, u: User): State {
    if k in s.tokens then s.(tokens := s.tokens - {k}, active := Decremented(s.active, u)) else s
  }

  function Revoked(s: State, cap: int, k: TokenId): State {
    if k !in s.tokens then s
    else s.(tokens := s.tokens - {k},
            active := if cap > 0 then Decremented(s.active, s.tokens[k].username) else s.active)
  }

  function OthersOf(tokens: map<TokenId, Token>, u: User): map<TokenId, Token> {
    map k | k in tokens && tokens[k].username != u :: tokens[k]
  }

  function AllRevoked(s: State, u: User): State {
    s.(tokens := OthersOf(s.tokens, u), active := s.active - {u})
  }

  // --- Which token a login evicts

  /** What the eviction loop has found so far; the zero time means nothing yet. */
  datatype Choice = Choice(token: TokenId, time: int)

  function Visit(tokens: map<TokenId, Token>, u: User, c: Choice, k: TokenId): Choice {
    if k in tokens && tokens[k].username == u && (c.time == ZERO_TIME || tokens[k].created < c.time)
    then Choice(k, tokens[k].created) else c
  }

  /** The loop, over the tokens in the given order. */
  function Chosen(tokens: map<TokenId, Token>, u: User, order: seq<TokenId>): Choice {
    if order == [] then Choice(EMPTY, ZERO_TIME)
    else Visit(tokens, u, Chosen(tokens, u, order[..|order| - 1]), order[|order| - 1])
  }

  /** Some order of visiting the tokens makes the loop choose this one. */
  ghost predicate MayEvict(tokens: map<TokenId, Token>, u: User, k: TokenId) {
    exists order :: IsOrder(order, tokens.Keys) && Chosen(tokens, u, order).token == k
  }

  ghost predicate IsOldest(tokens: map<TokenId, Token>, u: User, k: TokenId) {
    k in TokensOf(tokens, u) && forall other :: other in TokensOf(tokens, u) ==> tokens[k].created <= tokens[other].created
  }

  /** The least creation time among the user's tokens is not zero, or all of them are. */
  ghost predicate ClearOldest(tokens: map<TokenId, Token>, u: User) {
    || (forall k :: k in TokensOf(tokens, u) ==> tokens[k].created == ZERO_TIME)
    || exists k :: IsOldest(tokens, u, k) && tokens[k].created != ZERO_TIME
  }

  lemma {:induction false} ChosenIsVisited(tokens: map<TokenId, Token>, u: User, order: seq<TokenId>)
    ensures var c := Chosen(tokens, u, order);
            && (c.time != ZERO_TIME || (exists k :: k in order && k in TokensOf(tokens, u)) ==>
                  c.token in order && c.token in TokensOf(tokens, u) && c.time == tokens[c.token].created)
  {
    if order != [] {
      ChosenIsVisited(tokens, u, order[..|order| - 1]);
    }
  }

  lemma {:induction false} NothingChosen(tokens: map<TokenId, Token>, u: User, order: seq<TokenId>)
    ensures TokensOf(tokens, u) == {} ==> Chosen(tokens, u, order) == Choice(EMPTY, ZERO_TIME)
  {
    if order != [] {
      NothingChosen(tokens, u, order[..|order| - 1]);
      assert order[|order| - 1] in tokens && tokens[order[|order| - 1]].username == u ==>
               order[|order| - 1] in TokensOf(tokens, u);
    }
  }

  /** Once an oldest token with a proper time has been visited, its time stays. */
  lemma {:induction false} OldestStays(tokens: map<TokenId, Token>, u: User, order: seq<TokenId>, k: TokenId)
    requires IsOldest(tokens, u, k) && tokens[k].created != ZERO_TIME && k in order
    ensures Chosen(tokens, u, order).time == tokens[k].created
  {
    var n := |order| - 1;
    ChosenIsVisited(tokens, u, order[..n]);
    if order[n] != k {
      assert k in order[..n];
      OldestStays(tokens, u, order[..n], k);
    } else if k in order[..n] {
      OldestStays(tokens, u, order[..n], k);
    }
  }

  /** Under the condition the loop finds an oldest token whatever the order. */
  lemma ClearIsFound(tokens: map<TokenId, Token>, u: User, k: TokenId)
    requires ClearOldest(tokens, u) && MayEvict(tokens, u, k) && TokensOf(tokens, u) != {}
    ensures IsOldest(tokens, u, k)
  {
    var order :| IsOrder(order, tokens.Keys) && Chosen(tokens, u, order).token == k;
    var some :| some in TokensOf(tokens, u);
    assert some in order;
    ChosenIsVisited(tokens, u, order);
    if m :| IsOldest(tokens, u, m) && tokens[m].created != ZERO_TIME {
      OldestStays(tokens, u, order, m);
    }
  }

  /** Eviction takes an oldest token, in every order of visiting, just under that condition:
      when only some of the user's tokens have the zero time and none is older, a newer token
      may go. */
  lemma EvictsOldestExactly(tokens: map<TokenId, Token>, u: User)
    requires TokensOf(tokens, u) != {}
    ensures (forall k :: MayEvict(tokens, u, k) ==> IsOldest(tokens, u, k)) <==> ClearOldest(tokens, u)
  {
    if ClearOldest(tokens, u) {
      forall k | MayEvict(tokens, u, k) ensures IsOldest(tokens, u, k) {
        ClearIsFound(tokens, u, k);
      }
    } else {
      var last :| last in TokensOf(tokens, u) && tokens[last].created != ZERO_TIME;
      var order := OrderEndingWith(tokens.Keys, last);
      var c := Chosen(tokens, u, order);
      ChosenIsVisited(tokens, u, order);
      assert last in order && c.time != ZERO_TIME;
      assert MayEvict(tokens, u, c.token) && !IsOldest(tokens, u, c.token);
    }
  }

  /** A loaded token with the zero time, visited first, is passed over for a newer one. */
  lemma NewerEvicted()
    ensures var tokens := map[1 := Token(7, 0, 9), 2 := Token(7, 5, 9)];
            && IsOrder([1, 2], tokens.Keys) && Chosen(tokens, 7, [1, 2]).token == 2
            && MayEvict(tokens, 7, 2) && !IsOldest(tokens, 7, 2)
  {
    var tokens := map[1 := Token(7, 0, 9), 2 := Token(7, 5, 9)];
    assert [1, 2][..1] == [1] && [1][..0] == [];
    assert Chosen(tokens, 7, [1]) == Choice(1, 0);
    assert IsOrder([1, 2], tokens.Keys);
    assert 1 in TokensOf(tokens, 7);
  }

  /** What GenerateToken does for a known user: at the cap, and only then, one token of that
      user goes. */
  ghost predicate Generated(s: State, cap: int, u: User, k: TokenId, token: Token, victim: Option<TokenId>, t: State) {
    && (victim.Some? <==> cap > 0 && Count(s.active, u) >= cap && TokensOf(s.tokens, u) != {})
    && (victim.Some? ==> victim.value in TokensOf(s.tokens, u) && MayEvict(s.tokens, u, victim.value))
    && t.users == s.users
    && t.tokens == (if victim.Some? then s.tokens - {victim.value} else s.tokens)[k := token]
    && t.active == if cap <= 0 then s.active
                   else var active := if victim.Some? then Decremented(s.active, u) else s.active;
                        active[u := Count(active, u) + 1]
  }

  function UserUpdated(s: State, u: User, newPassword: bool, role: Option<Role>, now: int): State
    requires u in s.users
  {
    var was := s.users[u].role;
    var becomes := if role.Some? then role.value else was;
    var t := s.(users := s.users[u := Account(becomes, Some(now))]);
    if newPassword || becomes != was then AllRevoked(t, u) else t
  }

  function UserDeleted(s: State, u: User): State {
    AllRevoked(s.(users := s.users - {u}), u)
  }

  ghost function Admins(users: map<User, Account>): set<User> {
    set u | u in users && users[u].role.Admin?
  }

  /** Taking the administrator role from `u` would leave nobody with it. */
  ghost predicate OnlyAdmin(users: map<User, Account>, u: User) {
    Admins(users) == {u}
  }

  // --- The store

  /** What the read-locked half of ValidateToken finds. */
  datatype Validation = InvalidToken | InvalidSignature | Expired(owner: User) | UserNotFound | Valid(account: Account)

  datatype Outcome = Done | NotFound | LastAdmin

  /** A record of the tokens file; `wellFormed` stands for its user name, role and signature
      passing their checks. */
  datatype Loaded = Loaded(embedded: TokenId, wellFormed: bool, token: Token)

  predicate Acceptable(k: TokenId, l: Option<Loaded>) {
    l.Some? && k != EMPTY && l.value.embedded == k && l.value.wellFormed
  }

  /** The user still exists, has not changed since the token was made, and the token lives. */
  predicate Kept(users: map<User, Account>, t: Token, now: int) {
    && t.username in users && !ExpiredAt(t, now)
    && (users[t.username].updatedAt.Some? ==> t.created >= users[t.username].updatedAt.value)
  }

  class Store {
    var users: map<User, Account>
    var tokens: map<TokenId, Token>
    var active: map<User, int>
    const cap: int

    constructor (users: map<User, Account>, cap: int)
      ensures Abs() == State(users, map[], map[]) && this.cap == cap
    {
      this.users, tokens, active, this.cap := users, map[], map[], cap;
    }

    function Abs(): State
      reads this
    {
      State(users, tokens, active)
    }

    /** The eviction loop of GenerateToken. */
    method Oldest(u: User) returns (oldest: TokenId)
      requires EMPTY !in tokens
      ensures MayEvict(tokens, u, oldest)
      ensures oldest == EMPTY <==> TokensOf(tokens, u) == {}
      ensures oldest != EMPTY ==> oldest in TokensOf(tokens, u)
    {
      oldest := EMPTY;
      var oldestTime := ZERO_TIME;
      var todo := tokens.Keys;
      ghost var order: seq<TokenId> := [];
      while todo != {}
        invariant todo <= tokens.Keys && IsOrder(order, tokens.Keys - todo)
        invariant Choice(oldest, oldestTime) == Chosen(tokens, u, order)
        decreases |todo|
      {
        var k :| k in todo;
        todo := todo - {k};
        assert (order + [k])[..|order|] == order;
        order := order + [k];
        if tokens[k].username == u && (oldestTime == ZERO_TIME || tokens[k].created < oldestTime) {
          oldestTime := tokens[k].created;
          oldest := k;
        }
      }
      ChosenIsVisited(tokens, u, order);
      assert tokens.Keys - todo == tokens.Keys;
      NothingChosen(tokens, u, order);
    }

    /** GenerateToken, with the random token as a parameter. */
    method GenerateToken(u: User, k: TokenId, now: int, expiry: int) returns (ok: bool, victim: Option<TokenId>)
      requires EMPTY !in tokens && k != EMPTY
      modifies this
      ensures EMPTY !in tokens && (ok <==> u in old(users))
      ensures !ok ==> Abs() == old(Abs())
      ensures ok ==> Generated(old(Abs()), cap, u, k, Token(u, now, now + expiry), victim, Abs())
    {
      hide MayEvict, TokensOf;
      victim := None;
      if u !in users {
        return false, None;
      }
      if cap > 0 {
        if Count(active, u) >= cap {
          var oldest := Oldest(u);
          if oldest != EMPTY {
            tokens := tokens - {oldest};
            if Count(active, u) > 0 {
              active := active[u := Count(active, u) - 1];
            }
            victim := Some(oldest);
          }
        }
        active := active[u := Count(active, u) + 1];
      }
      tokens := tokens[k := Token(u, now, now + expiry)];
      ok := true;
    }

    /** The read-locked half of ValidateToken; `signed` is the verdict of the signature check. */
    method ValidateToken(k: TokenId, now: int, signed: bool) returns (v: Validation)
      ensures v.InvalidToken? <==> k !in tokens
      ensures v.InvalidSignature? <==> k in tokens && !signed
      ensures v.Expired? <==> k in tokens && signed && ExpiredAt(tokens[k], now)
      ensures v.Expired? ==> v.owner == tokens[k].username
      ensures v.Valid? <==> k in tokens && signed && now < tokens[k].expires && tokens[k].username in users
      ensures v.Valid? ==> v.account == users[tokens[k].username]
    {
      if k !in tokens {
        return InvalidToken;
      }
      if !signed {
        return InvalidSignature;
      }
      if ExpiredAt(tokens[k], now) {
        return Expired(tokens[k].username);
      }
      if tokens[k].username !in users {
        return UserNotFound;
      }
      v := Valid(users[tokens[k].username]);
    }

    /** The write-locked half. */
    method DropExpired(k: TokenId, owner: User)
      modifies this
      ensures Abs() == ExpiryDropped(old(Abs()), k, owner)
    {
      if k in tokens {
        tokens := tokens - {k};
        if Count(active, owner) > 0 {
          active := active[owner := Count(active, owner) - 1];
        }
      }
    }

    method RevokeToken(k: TokenId)
      modifies this
      ensures Abs() == Revoked(old(Abs()), cap, k)
    {
      if k in tokens {
        var u := tokens[k].username;
        if cap > 0 && Count(active, u) > 0 {
          active := active[u := Count(active, u) - 1];
        }
      }
      tokens := tokens - {k};
    }

    /** RevokeAllTokens, whose loop also ends UpdateUser and deleteUserLocked. */
    method RevokeAllTokens(u: User)
      modifies this`tokens, this`active
      ensures Abs() == AllRevoked(old(Abs()), u)
    {
      var todo := tokens.Keys;
      while todo != {}
        invariant active == old(active) && todo <= tokens.Keys <= old(tokens).Keys
        invariant forall k :: k in tokens ==> tokens[k] == old(tokens)[k]
        invariant forall k :: k in old(tokens) && k !in todo ==> (k in tokens <==> old(tokens)[k].username != u)
        decreases |todo|
      {
        var k :| k in todo;
        todo := todo - {k};
        if tokens[k].username == u {
          tokens := tokens - {k};
        }
      }
      assert tokens == OthersOf(old(tokens), u);
      active := active - {u};
    }

    method AdminCount() returns (count: nat)
      ensures count == |Admins(users)|
    {
      count := 0;
      var todo := users.Keys;
      ghost var seen: set<User> := {};
      while todo != {}
        invariant todo <= users.Keys && count == |seen|
        invariant seen == Admins(users) - todo
        decreases |todo|
      {
        var u :| u in todo;
        todo := todo - {u};
        if users[u].role.Admin? {
          seen := seen + {u};
          count := count + 1;
        }
      }
    }

    /** UpdateUser, after its checks of the password and the role. */
    method UpdateUser(u: User, newPassword: bool, role: Option<Role>, now: int) returns (r: Outcome)
      modifies this
      ensures r.NotFound? <==> u !in old(users)
      ensures r.LastAdmin? <==> OnlyAdmin(old(users), u) && role.Some? && !role.value.Admin?
      ensures Abs() == if r.Done? then UserUpdated(old(Abs()), u, newPassword, role, now) else old(Abs())
    {
      if u !in users {
        return NotFound;
      }
      var was := users[u].role;
      var admins := AdminCount();
      LastAdminCounted(users, u);
      if role.Some? && was.Admin? && !role.value.Admin? && admins <= 1 {
        return LastAdmin;
      }
      var becomes := if role.Some? then role.value else was;
      users := users[u := Account(becomes, Some(now))];
      if newPassword || becomes != was {
        RevokeAllTokens(u);
      }
      r := Done;
    }

    method DeleteUser(u: User) returns (r: Outcome)
      modifies this
      ensures r == if u in old(users) then Done else NotFound
      ensures Abs() == if r.Done? then UserDeleted(old(Abs()), u) else old(Abs())
    {
      if u !in users {
        return NotFound;
      }
      users := users - {u};
      RevokeAllTokens(u);
      r := Done;
    }

    method DeleteUserPreservingLastAdmin(u: User) returns (r: Outcome)
      modifies this
      ensures r.NotFound? <==> u !in old(users)
      ensures r.LastAdmin? <==> OnlyAdmin(old(users), u)
      ensures Abs() == if r.Done? then UserDeleted(old(Abs()), u) else old(Abs())
    {
      if u !in users {
        return NotFound;
      }
      var admins := AdminCount();
      LastAdminCounted(users, u);
      if users[u].role.Admin? && admins <= 1 {
        return LastAdmin;
      }
      r := DeleteUser(u);
    }

    /** prepareLoadedTokens: an error just when some record is unacceptable; otherwise exactly
        the records to keep, each under its own key, with their exact counts. */
    method PrepareLoaded(file: map<TokenId, Option<Loaded>>, now: int, snapshot: map<User, Account>)
      returns (ok: bool, filtered: map<TokenId, Token>, counts: map<User, int>)
      ensures ok <==> forall k :: k in file ==>
                file[k].Some? && k != EMPTY && file[k].value.embedded == k && file[k].value.wellFormed
      ensures ok ==> forall k :: k in filtered <==>
                && k in file && file[k].value.token.username in snapshot && now < file[k].value.token.expires
                && var changed := snapshot[file[k].value.token.username].updatedAt;
                   changed.None? || file[k].value.token.created >= changed.value
      ensures ok ==> forall k :: k in filtered ==> filtered[k] == file[k].value.token
      ensures ok ==> Counted(counts, filtered)
    {
      filtered, counts := map[], map[];
      EmptyTable();
      var todo := file.Keys;
      while todo != {}
        invariant todo <= file.Keys
        invariant forall k :: k in file && k !in todo ==> Acceptable(k, file[k])
        invariant forall k :: k in filtered <==>
                    k in file && k !in todo && file[k].Some? && Kept(snapshot, file[k].value.token, now)
        invariant forall k :: k in filtered ==> filtered[k] == file[k].value.token
        invariant Counted(counts, filtered)
        decreases |todo|
      {
        var k :| k in todo;
        todo := todo - {k};
        if file[k].None? || k == EMPTY || file[k].value.embedded != k || !file[k].value.wellFormed {
          assert !Acceptable(k, file[k]);
          return false, map[], map[];
        }
        var t := file[k].value.token;
        if Kept(snapshot, t, now) {
          TokenAdded(filtered, counts, k, t);
          filtered := filtered[k := t];
          counts := counts[t.username := Count(counts, t.username) + 1];
        }
      }
      ok := true;
    }
  }

  lemma EmptyTable()
    ensures Counted(map[], map[])
  {
    forall u: User ensures |TokensOf(map[], u)| == 0 {
      assert TokensOf(map[], u) == {};
    }
  }

  lemma AddedFor(tokens: map<TokenId, Token>, k: TokenId, t: Token, u: User)
    requires k !in tokens
    ensures TokensOf(tokens[k := t], u) == if u == t.username then TokensOf(tokens, u) + {k} else TokensOf(tokens, u)
    ensures |TokensOf(tokens[k := t], u)| == |TokensOf(tokens, u)| + if u == t.username then 1 else 0
  {
    var before, after := TokensOf(tokens, u), TokensOf(tokens[k := t], u);
    if u == t.username {
      assert after == before + {k} && k !in before;
    } else {
      assert after == before;
    }
  }

  lemma RemovedFor(tokens: map<TokenId, Token>, k: TokenId, u: User)
    requires k in tokens
    ensures TokensOf(tokens - {k}, u) == if u == tokens[k].username then TokensOf(tokens, u) - {k} else TokensOf(tokens, u)
    ensures |TokensOf(tokens - {k}, u)| == |TokensOf(tokens, u)| - if u == tokens[k].username then 1 else 0
  {
    var before, after := TokensOf(tokens, u), TokensOf(tokens - {k}, u);
    if u == tokens[k].username {
      assert after == before - {k} && k in before;
    } else {
      assert after == before;
    }
  }

  lemma OthersFor(tokens: map<TokenId, Token>, gone: User, u: User)
    ensures |TokensOf(OthersOf(tokens, gone), u)| == if u == gone then 0 else |TokensOf(tokens, u)|
  {
    var before, after := TokensOf(tokens, u), TokensOf(OthersOf(tokens, gone), u);
    if u == gone {
      assert after == {};
    } else {
      assert after == before;
    }
  }

  /** A new token adds one to its user's count and nothing to the others'. */
  lemma TokenAdded(tokens: map<TokenId, Token>, counts: map<User, int>, k: TokenId, t: Token)
    requires Counted(counts, tokens) && k !in tokens
    ensures Counted(counts[t.username := Count(counts, t.username) + 1], tokens[k := t])
  {
    hide TokensOf;
    var counted, stored := counts[t.username := Count(counts, t.username) + 1], tokens[k := t];
    forall u: User ensures Count(counted, u) == |TokensOf(stored, u)| {
      AddedFor(tokens, k, t, u);
    }
  }

  lemma TokenRemoved(tokens: map<TokenId, Token>, counts: map<User, int>, k: TokenId)
    requires Counted(counts, tokens) && k in tokens
    ensures Count(counts, tokens[k].username) > 0
    ensures Counted(Decremented(counts, tokens[k].username), tokens - {k})
  {
    hide TokensOf;
    forall u: User
      ensures |TokensOf(tokens - {k}, u)| == |TokensOf(tokens, u)| - if u == tokens[k].username then 1 else 0
    {
      RemovedFor(tokens, k, u);
    }
    assert |TokensOf(tokens - {k}, tokens[k].username)| >= 0;
  }

  lemma TokensDropped(tokens: map<TokenId, Token>, counts: map<User, int>, gone: User)
    requires Counted(counts, tokens)
    ensures Counted(counts - {gone}, OthersOf(tokens, gone))
  {
    hide TokensOf, OthersOf;
    forall u: User
      ensures |TokensOf(OthersOf(tokens, gone), u)| == if u == gone then 0 else |TokensOf(tokens, u)|
    {
      OthersFor(tokens, gone, u);
    }
  }

  lemma LastAdminCounted(users: map<User, Account>, u: User)
    requires u in users
    ensures OnlyAdmin(users, u) <==> users[u].role.Admin? && |Admins(users)| <= 1
  {
    if users[u].role.Admin? && |Admins(users)| <= 1 {
      assert u in Admins(users);
      assert |Admins(users) - {u}| == |Admins(users)| - 1;
      assert Admins(users) == Admins(users) - {u} + {u};
    }
  }
}
