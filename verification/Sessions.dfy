/**
 The session table of the web server (gsad.c, the user_ functions) as a state machine. The mutex
 makes each call one step; a call that returns a user returns with the mutex held, and the next
 step then is the release or the removal of that user.
 */
module Sessions {
  import opened Options
  import opened Text

  datatype Settings = Settings(password: string, role: string, timezone: string, severity: string,
                               capabilities: string, language: Option<string>, autorefresh: string)

  /** struct user */
  datatype User = User(username: string, token: string, cookie: string, time: int, settings: Settings)

  /** The table, and the user whose holder has the mutex. */
  datatype State = State(users: seq<User>, held: Option<string>)

  datatype Setting =
    | Timezone(value: string) | Password(value: string) | Severity(value: string)
    | Language(name: Option<string>) | LanguageCode(value: string) | Autorefresh(value: string)

  /** A call. The new identifiers and the clock readings (now to compare, stamp to store) come with it. */
  datatype Action =
    | Add(username: string, settings: Settings, token: string, cookie: string, stamp: int)
    | Find(sentCookie: Option<string>, sentToken: Option<string>, now: int, stamp: int)
    | TokenUser(sent: string, now: int, stamp: int)
    | TokenUserRemove(sent: string, now: int, stamp: int)
    | Change(username: string, setting: Setting)
    | Release
    | Remove

  /** set_language_code */
  function LanguageOf(language: Option<string>): Option<string> {
    match language
    case Some("Chinese") => Some("zh")
    case Some("English") => Some("en")
    case Some("German") => Some("de")
    case _ => None
  }

  function Changed(x: Settings, c: Setting): Settings {
    match c
    case Timezone(v) => x.(timezone := v)
    case Password(v) => x.(password := v)
    case Severity(v) => x.(severity := v)
    case Language(l) => x.(language := LanguageOf(l))
    case LanguageCode(v) => x.(language := Some(v))
    case Autorefresh(v) => x.(autorefresh := v)
  }

  /** What a login stores; logging in again leaves the severity class alone. */
  function LoggedIn(prev: Option<Settings>, x: Settings): Settings {
    x.(language := LanguageOf(x.language), severity := if prev.Some? then prev.value.severity else x.severity)
  }

  /** The place of the first user with that name, or |us|. */
  function ByName(us: seq<User>, name: string): (i: nat)
    ensures i <= |us| && (i < |us| ==> us[i].username == name)
    ensures forall j :: 0 <= j < i ==> us[j].username != name
  {
    if us == [] || us[0].username == name then 0 else 1 + ByName(us[1..], name)
  }

  /** The place of the first user with that token, or |us|. */
  function ByToken(us: seq<User>, token: string): (i: nat)
    ensures i <= |us| && (i < |us| ==> us[i].token == token)
    ensures forall j :: 0 <= j < i ==> us[j].token != token
  {
    if us == [] || us[0].token == token then 0 else 1 + ByToken(us[1..], token)
  }

  /** The place of the user a lookup accepts, if it accepts one. */
  function Accepts(us: seq<User>, a: Action, timeout: int): (r: Option<nat>)
    ensures r.Some? ==> r.value < |us|
  {
    var token :=
      match a
      case Find(_, t, _, _) => t
      case TokenUser(t, _, _) => Some(t)
      case TokenUserRemove(t, _, _) => Some(t)
      case _ => None;
    if token == None then None
    else
      var i := ByToken(us, token.value);
      if i < |us| && (a.Find? ==> a.sentCookie == Some(us[i].cookie)) && a.now - us[i].time <= timeout * 60
      then Some(i) else None
  }

  /** The code a call returns; 0 for the calls that return nothing. */
  function Code(us: seq<User>, a: Action, timeout: int): int {
    match a
    case Find(_, t, _, _) =>
      if t == None then 4 else if Accepts(us, a, timeout).Some? then 0 else 2
    case TokenUser(t, _, _) =>
      if Accepts(us, a, timeout).Some? then 0 else if ByToken(us, t) < |us| then 2 else 1
    case TokenUserRemove(_, _, _) => if Accepts(us, a, timeout).Some? then 0 else -1
    case Change(n, _) => if ByName(us, n) < |us| then 0 else 1
    case _ => 0
  }

  function WithoutUser(us: seq<User>, i: nat): seq<User>
    requires i <= |us|
  {
    us[..i] + if i < |us| then us[i + 1..] else []
  }

  function Stamped(us: seq<User>, p: Option<nat>, stamp: int): State
    requires p.Some? ==> p.value < |us|
  {
    if p == None then State(us, None)
    else State(us[p.value := us[p.value].(time := stamp)], Some(us[p.value].username))
  }

  function Next(s: State, a: Action, timeout: int): State {
    var us := s.users;
    match a
    case Add(n, x, token, cookie, stamp) =>
      var i := ByName(us, n);
      State(if i < |us| then us[i := User(n, token, cookie, stamp, LoggedIn(Some(us[i].settings), x))]
            else us + [User(n, token, cookie, stamp, LoggedIn(None, x))], Some(n))
    case Find(_, t, _, stamp) =>
      if t == None then s else Stamped(us, Accepts(us, a, timeout), stamp)
    case TokenUser(_, _, stamp) =>
      Stamped(us, Accepts(us, a, timeout), stamp)
    case TokenUserRemove(_, _, _) =>
      var p := Accepts(us, a, timeout);
      State(if p.Some? then WithoutUser(us, p.value) else us, None)
    case Change(n, x) =>
      var i := ByName(us, n);
      if i < |us| then s.(users := us[i := us[i].(settings := Changed(us[i].settings, x))]) else s
    case Release => s.(held := None)
    case Remove => State(if s.held.Some? then WithoutUser(us, ByName(us, s.held.value)) else us, None)
  }

  /** A call can go on when it need not wait for the mutex; only who holds the mutex releases it. */
  predicate Enabled(s: State, a: Action) {
    match a
    case Release => s.held.Some?
    case Remove => s.held.Some?
    case Find(_, None, _, _) => true
    case _ => s.held == None
  }

  // ----- histories

  /** The calls h took the empty table through these states; no call went on without the mutex. */
  ghost predicate Run(run: seq<State>, h: seq<Action>, timeout: int) {
    && |run| == |h| + 1 && run[0] == State([], None)
    && forall i {:trigger h[i]} :: 0 <= i < |h| ==> Enabled(run[i], h[i]) && run[i + 1] == Next(run[i], h[i], timeout)
  }

  /** No two logins were given the same token. */
  ghost predicate FreshTokens(h: seq<Action>) {
    forall i, j :: 0 <= i < j < |h| && h[i].Add? && h[j].Add? ==> h[i].token != h[j].token
  }

  ghost predicate NamesDistinct(us: seq<User>) {
    forall i, j :: 0 <= i < j < |us| ==> us[i].username != us[j].username
  }

  ghost predicate TokensDistinct(us: seq<User>) {
    forall i, j :: 0 <= i < j < |us| ==> us[i].token != us[j].token
  }

  /** Names are distinct, and the user whose holder has the mutex is in the table. */
  ghost predicate Valid(s: State) {
    NamesDistinct(s.users) && (s.held.Some? ==> ByName(s.users, s.held.value) < |s.users|)
  }

  lemma {:induction false} Held(us: seq<User>, i: nat)
    requires i < |us|
    ensures ByName(us, us[i].username) < |us|
  {
  }

  lemma {:induction false} StepKeepsValid(s: State, a: Action, timeout: int)
    requires Valid(s) && Enabled(s, a)
    ensures Valid(Next(s, a, timeout))
  {
    var s' := Next(s, a, timeout);
    match a {
      case Add(n, _, _, _, _) => Held(s'.users, ByName(s.users, n));
      case Find(_, _, _, _) => StampKeepsValid(s.users, Accepts(s.users, a, timeout), a.stamp);
      case TokenUser(_, _, _) => StampKeepsValid(s.users, Accepts(s.users, a, timeout), a.stamp);
      case TokenUserRemove(_, _, _) => RemovalKeepsValid(s.users, if Accepts(s.users, a, timeout).Some? then Accepts(s.users, a, timeout).value else |s.users|);
      case Remove => RemovalKeepsValid(s.users, ByName(s.users, s.held.value));
      case _ =>
    }
  }

  lemma {:induction false} RemovalKeepsValid(us: seq<User>, i: nat)
    requires NamesDistinct(us) && i <= |us|
    ensures NamesDistinct(WithoutUser(us, i))
  {
  }

  lemma {:induction false} StampKeepsValid(us: seq<User>, p: Option<nat>, stamp: int)
    requires NamesDistinct(us) && (p.Some? ==> p.value < |us|)
    ensures Valid(Stamped(us, p, stamp))
  {
    if p.Some? {
      Held(Stamped(us, p, stamp).users, p.value);
    }
  }

  /** Usernames stay distinct over every run. */
  lemma {:induction false} NamesStayDistinct(run: seq<State>, h: seq<Action>, k: nat, timeout: int)
    requires Run(run, h, timeout) && k <= |h|
    ensures Valid(run[k])
  {
    if k > 0 {
      NamesStayDistinct(run, h, k - 1, timeout);
      StepKeepsValid(run[k - 1], h[k - 1], timeout);
    }
  }

  // ----- where a session comes from

  function Clock(a: Action): int {
    match a
    case Add(_, _, _, _, t) => t
    case Find(_, _, _, t) => t
    case TokenUser(_, _, t) => t
    case TokenUserRemove(_, _, t) => t
    case _ => 0
  }

  /** The call is a lookup that returns that user. */
  ghost predicate Uses(s: State, a: Action, name: string, timeout: int) {
    var p := Accepts(s.users, a, timeout);
    (a.Find? || a.TokenUser?) && p.Some? && s.users[p.value].username == name
  }

  /** The call ends the session of that user: a new login, or a removal. */
  ghost predicate Ends(s: State, a: Action, name: string, timeout: int) {
    match a
    case Add(n, _, _, _, _) => n == name
    case Remove => s.held == Some(name)
    case TokenUserRemove(_, _, _) =>
      var p := Accepts(s.users, a, timeout);
      p.Some? && s.users[p.value].username == name
    case _ => false
  }

  /** The j-th call after the login used that session, within the timeout of the stamp t before it. */
  ghost predicate Link(run: seq<State>, h: seq<Action>, j: nat, t: int, name: string, timeout: int)
    requires j < |h| && j < |run|
  {
    Uses(run[j], h[j], name, timeout) && h[j].now - t <= timeout * 60
  }

  ghost predicate Increasing(c: seq<nat>, k: nat) {
    && |c| > 0 && (forall i :: 0 <= i < |c| ==> c[i] < k)
    && forall i, j :: 0 <= i < j < |c| ==> c[i] < c[j]
  }

  ghost predicate Links(run: seq<State>, h: seq<Action>, c: seq<nat>, name: string, timeout: int)
    requires |h| < |run| && Increasing(c, |h|)
  {
    forall i :: 0 < i < |c| ==> Link(run, h, c[i], Clock(h[c[i - 1]]), name, timeout)
  }

  /** Every accepted lookup since call b is in c. */
  ghost predicate AllUses(run: seq<State>, h: seq<Action>, b: nat, k: nat, c: seq<nat>, name: string, timeout: int)
    requires k <= |h| < |run|
  {
    forall j :: b < j < k && Uses(run[j], h[j], name, timeout) ==> j in c
  }

  /** The session has not been ended since call b. */
  ghost predicate Unended(run: seq<State>, h: seq<Action>, b: nat, k: nat, name: string, timeout: int)
    requires k <= |h| < |run|
  {
    forall j :: b < j < k ==> !Ends(run[j], h[j], name, timeout)
  }

  /**
   The calls c, among the first k, lead from a login of that user, with that token and cookie, to
   now: the first is the login, the others are exactly the accepted lookups since then, none comes
   more than the timeout after the one before it, and the session has not been ended.
   */
  ghost predicate Chain(run: seq<State>, h: seq<Action>, k: nat, c: seq<nat>, name: string, token: string, cookie: string, timeout: int) {
    && k <= |h| < |run| && Increasing(c, k)
    && h[c[0]].Add? && h[c[0]].username == name && h[c[0]].token == token && h[c[0]].cookie == cookie
    && Links(run, h, c, name, timeout)
    && AllUses(run, h, c[0], k, c, name, timeout)
    && Unended(run, h, c[0], k, name, timeout)
  }

  /** The time of the last call of a chain. */
  ghost function LastUse(h: seq<Action>, c: seq<nat>): int
    requires |c| > 0 && c[|c| - 1] < |h|
  {
    Clock(h[c[|c| - 1]])
  }

  /** The user as the table shows it to lookups. */
  ghost predicate Shows(us: seq<User>, name: string, token: string, cookie: string, time: int) {
    exists i :: 0 <= i < |us| && us[i].username == name && us[i].token == token && us[i].cookie == cookie && us[i].time == time
  }

  lemma {:induction false} LinksGrow(run: seq<State>, h: seq<Action>, k: nat, c: seq<nat>, name: string, timeout: int)
    requires k < |h| < |run| && Increasing(c, k) && Links(run, h, c, name, timeout)
    requires Link(run, h, k, LastUse(h, c), name, timeout)
    ensures Increasing(c + [k], k + 1) && Links(run, h, c + [k], name, timeout)
  {
    var d := c + [k];
    forall i | 0 < i < |d| ensures Link(run, h, d[i], Clock(h[d[i - 1]]), name, timeout) {
      if i < |c| {
        assert d[i] == c[i] && d[i - 1] == c[i - 1];
      } else {
        assert d[i] == k && d[i - 1] == c[|c| - 1];
      }
    }
  }

  lemma {:induction false} ChainGrows(run: seq<State>, h: seq<Action>, k: nat, c: seq<nat>, name: string, token: string, cookie: string, timeout: int)
    requires k < |h| < |run| && Chain(run, h, k, c, name, token, cookie, timeout)
    requires !Ends(run[k], h[k], name, timeout)
    requires Uses(run[k], h[k], name, timeout) ==> h[k].now - LastUse(h, c) <= timeout * 60
    ensures Chain(run, h, k + 1, if Uses(run[k], h[k], name, timeout) then c + [k] else c, name, token, cookie, timeout)
  {
    UnendedGrows(run, h, c[0], k, name, timeout);
    AllUsesGrow(run, h, k, c, name, timeout);
    if Uses(run[k], h[k], name, timeout) {
      LinksGrow(run, h, k, c, name, timeout);
    }
  }

  lemma {:induction false} UnendedGrows(run: seq<State>, h: seq<Action>, b: nat, k: nat, name: string, timeout: int)
    requires k < |h| < |run| && Unended(run, h, b, k, name, timeout) && !Ends(run[k], h[k], name, timeout)
    ensures Unended(run, h, b, k + 1, name, timeout)
  {
  }

  lemma {:induction false} AllUsesGrow(run: seq<State>, h: seq<Action>, k: nat, c: seq<nat>, name: string, timeout: int)
    requires k < |h| < |run| && c != [] && AllUses(run, h, c[0], k, c, name, timeout)
    ensures AllUses(run, h, c[0], k + 1, if Uses(run[k], h[k], name, timeout) then c + [k] else c, name, timeout)
  {
    var d := if Uses(run[k], h[k], name, timeout) then c + [k] else c;
    forall j | c[0] < j < k + 1 && Uses(run[j], h[j], name, timeout) ensures j in d {
      assert j < k ==> j in c;
    }
  }

  lemma {:induction false} ChainShrinks(run: seq<State>, h: seq<Action>, k: nat, c: seq<nat>, name: string, token: string, cookie: string, timeout: int)
    requires Chain(run, h, k + 1, c, name, token, cookie, timeout) && c[0] < k
    ensures !Ends(run[k], h[k], name, timeout)
    ensures Uses(run[k], h[k], name, timeout) <==> c[|c| - 1] == k
    ensures c[|c| - 1] == k ==> |c| > 1 && h[k].now - LastUse(h, c[..|c| - 1]) <= timeout * 60
    ensures Chain(run, h, k, if c[|c| - 1] == k then c[..|c| - 1] else c, name, token, cookie, timeout)
  {
    var last := c[|c| - 1];
    var d := if last == k then c[..|c| - 1] else c;
    assert last == k ==> Link(run, h, k, Clock(h[c[|c| - 2]]), name, timeout);
    if last == k {
      LinksShrink(run, h, k, c, name, timeout);
    } else {
      assert forall i :: 0 <= i < |c| - 1 ==> c[i] < last;
      assert Increasing(c, k);
    }
    forall j | d[0] < j < k && Uses(run[j], h[j], name, timeout) ensures j in d {
      assert j in c;
    }
  }

  lemma {:induction false} LinksShrink(run: seq<State>, h: seq<Action>, k: nat, c: seq<nat>, name: string, timeout: int)
    requires k < |h| < |run| && Increasing(c, k + 1) && Links(run, h, c, name, timeout) && |c| > 1
    ensures Increasing(c[..|c| - 1], k) && Links(run, h, c[..|c| - 1], name, timeout)
  {
    var d := c[..|c| - 1];
    forall i | 0 <= i < |d| ensures d[i] < k {
      assert c[i] < c[|c| - 1];
    }
    forall i | 0 < i < |d| ensures Link(run, h, d[i], Clock(h[d[i - 1]]), name, timeout) {
      assert d[i] == c[i] && d[i - 1] == c[i - 1];
    }
  }

  /** Every session in the table goes back to a login by such a chain of calls. */
  lemma {:induction false} SessionsComeFromLogins(run: seq<State>, h: seq<Action>, k: nat, timeout: int, i: nat) returns (c: seq<nat>)
    requires Run(run, h, timeout) && k <= |h| && i < |run[k].users|
    ensures var u := run[k].users[i];
      Chain(run, h, k, c, u.username, u.token, u.cookie, timeout) && LastUse(h, c) == u.time
  {
    var k' := k - 1;
    var s, a, u := run[k'], h[k'], run[k].users[i];
    NamesStayDistinct(run, h, k', timeout);
    NamesStayDistinct(run, h, k, timeout);
    if a.Add? && a.username == u.username {
      c := [k'];
    } else {
      var j := Predecessor(s, a, timeout, i);
      c := SessionsComeFromLogins(run, h, k', timeout, j);
      ChainGrows(run, h, k', c, u.username, u.token, u.cookie, timeout);
      if Uses(s, a, u.username, timeout) {
        c := c + [k'];
      }
    }
  }

  /** Where a user was before another was taken out. */
  lemma {:induction false} BeforeRemoval(us: seq<User>, r: nat, i: nat) returns (j: nat)
    requires NamesDistinct(us) && r < |us| && i < |WithoutUser(us, r)|
    ensures j < |us| && us[j] == WithoutUser(us, r)[i] && us[j].username != us[r].username
  {
    j := if i < r then i else i + 1;
  }

  /** Where a user that was not just added was before the step, and what the step did to it. */
  lemma {:induction false} Predecessor(s: State, a: Action, timeout: int, i: nat) returns (j: nat)
    requires Valid(s)
    requires i < |Next(s, a, timeout).users| && !(a.Add? && a.username == Next(s, a, timeout).users[i].username)
    ensures var u := Next(s, a, timeout).users[i];
      && j < |s.users| && s.users[j].(time := u.time, settings := u.settings) == u
      && !Ends(s, a, u.username, timeout)
      && (if Uses(s, a, u.username, timeout) then u.time == a.stamp && a.now - s.users[j].time <= timeout * 60
          else u.time == s.users[j].time)
  {
    j := i;
    match a {
      case Remove =>
        if s.held.Some? {
          j := BeforeRemoval(s.users, ByName(s.users, s.held.value), i);
        }
      case TokenUserRemove(_, _, _) =>
        var p := Accepts(s.users, a, timeout);
        if p.Some? {
          j := BeforeRemoval(s.users, p.value, i);
        }
      case _ =>
    }
  }

  /** Every such chain leads to a session in the table. */
  lemma {:induction false} LoginsLeadToSessions(run: seq<State>, h: seq<Action>, k: nat, timeout: int, c: seq<nat>,
                                                name: string, token: string, cookie: string)
    requires Run(run, h, timeout) && Chain(run, h, k, c, name, token, cookie, timeout)
    ensures Shows(run[k].users, name, token, cookie, LastUse(h, c))
  {
    var k' := k - 1;
    var s, a := run[k'], h[k'];
    NamesStayDistinct(run, h, k', timeout);
    if c[0] == k' {
      assert c == [k'];
      LoginShows(s, a, timeout);
    } else {
      ChainShrinks(run, h, k', c, name, token, cookie, timeout);
      var d := if c[|c| - 1] == k' then c[..|c| - 1] else c;
      LoginsLeadToSessions(run, h, k', timeout, d, name, token, cookie);
      Successor(s, a, timeout, name, token, cookie, LastUse(h, d));
    }
  }

  lemma {:induction false} LoginShows(s: State, a: Action, timeout: int)
    requires a.Add?
    ensures Shows(Next(s, a, timeout).users, a.username, a.token, a.cookie, a.stamp)
  {
    assert Next(s, a, timeout).users[ByName(s.users, a.username)].username == a.username;
  }

  lemma {:induction false} ShowsAfterRemoval(us: seq<User>, r: nat, name: string, token: string, cookie: string, time: int)
    requires r < |us| && us[r].username != name && Shows(us, name, token, cookie, time)
    ensures Shows(WithoutUser(us, r), name, token, cookie, time)
  {
    var i :| 0 <= i < |us| && us[i].username == name && us[i].token == token && us[i].cookie == cookie && us[i].time == time;
    assert WithoutUser(us, r)[if i < r then i else i - 1] == us[i];
  }

  lemma {:induction false} ShowsAfterChange(us: seq<User>, vs: seq<User>, i: nat, name: string, token: string, cookie: string, time: int)
    requires i < |us| <= |vs| && forall j :: 0 <= j < |us| && j != i ==> vs[j] == us[j]
    requires Shows(us, name, token, cookie, time)
    requires us[i].username != name || vs[i] == us[i].(settings := vs[i].settings)
    ensures Shows(vs, name, token, cookie, time)
  {
    var j :| 0 <= j < |us| && us[j].username == name && us[j].token == token && us[j].cookie == cookie && us[j].time == time;
    assert vs[j].username == name;
  }

  lemma {:induction false} ShowsAfterStamp(us: seq<User>, p: nat, stamp: int, name: string, token: string, cookie: string, time: int)
    requires NamesDistinct(us) && p < |us| && Shows(us, name, token, cookie, time)
    ensures Shows(Stamped(us, Some(p), stamp).users, name, token, cookie, if us[p].username == name then stamp else time)
  {
    var j :| 0 <= j < |us| && us[j].username == name && us[j].token == token && us[j].cookie == cookie && us[j].time == time;
    assert Stamped(us, Some(p), stamp).users[j].username == name;
  }

  /** A step that does not end a session keeps it, stamped anew if it used it. */
  lemma {:induction false} Successor(s: State, a: Action, timeout: int, name: string, token: string, cookie: string, time: int)
    requires Valid(s) && Enabled(s, a) && Shows(s.users, name, token, cookie, time)
    requires !Ends(s, a, name, timeout)
    ensures Shows(Next(s, a, timeout).users, name, token, cookie, if Uses(s, a, name, timeout) then a.stamp else time)
  {
    var us, vs := s.users, Next(s, a, timeout).users;
    var p := Accepts(us, a, timeout);
    match a {
      case Add(n, _, _, _, _) =>
        ShowsAfterChange(us, vs, if ByName(us, n) < |us| then ByName(us, n) else 0, name, token, cookie, time);
      case Change(n, _) =>
        ShowsAfterChange(us, vs, if ByName(us, n) < |us| then ByName(us, n) else 0, name, token, cookie, time);
      case Remove => ShowsAfterRemoval(us, ByName(us, s.held.value), name, token, cookie, time);
      case TokenUserRemove(_, _, _) =>
        if p.Some? { ShowsAfterRemoval(us, p.value, name, token, cookie, time); }
      case Release =>
      case Find(_, _, _, stamp) =>
        if p.Some? { ShowsAfterStamp(us, p.value, stamp, name, token, cookie, time); }
      case TokenUser(_, _, stamp) =>
        if p.Some? { ShowsAfterStamp(us, p.value, stamp, name, token, cookie, time); }
    }
  }

  /** Two logins never share a token, so no two sessions do. */
  lemma {:induction false} TokensStayDistinct(run: seq<State>, h: seq<Action>, k: nat, timeout: int)
    requires Run(run, h, timeout) && FreshTokens(h) && k <= |h|
    ensures TokensDistinct(run[k].users)
  {
    var us := run[k].users;
    NamesStayDistinct(run, h, k, timeout);
    forall i, j | 0 <= i < j < |us| ensures us[i].token != us[j].token {
      var c := SessionsComeFromLogins(run, h, k, timeout, i);
      var d := SessionsComeFromLogins(run, h, k, timeout, j);
      assert c[0] != d[0];
    }
  }

  /**
   user_find accepts exactly the pairs given out at the latest login of some user, not removed
   since, whose chain of accepted lookups reaches now without a gap above the timeout.
   */
  lemma {:induction false} FindAcceptsExactly(run: seq<State>, h: seq<Action>, timeout: int, cookie: string, token: string, now: int, stamp: int)
    requires Run(run, h, timeout) && FreshTokens(h)
    ensures Code(run[|h|].users, Find(Some(cookie), Some(token), now, stamp), timeout) == 0 <==>
            exists c, name :: Chain(run, h, |h|, c, name, token, cookie, timeout) && now - LastUse(h, c) <= timeout * 60
  {
    var us := run[|h|].users;
    TokensStayDistinct(run, h, |h|, timeout);
    if Code(us, Find(Some(cookie), Some(token), now, stamp), timeout) == 0 {
      var i := AcceptedIs(us, cookie, token, now, stamp, timeout);
      var c := SessionsComeFromLogins(run, h, |h|, timeout, i);
    }
    if c, name :| Chain(run, h, |h|, c, name, token, cookie, timeout) && now - LastUse(h, c) <= timeout * 60 {
      LoginsLeadToSessions(run, h, |h|, timeout, c, name, token, cookie);
      ShownIsAccepted(us, name, token, cookie, LastUse(h, c), now, stamp, timeout);
    }
  }

  lemma {:induction false} AcceptedIs(us: seq<User>, cookie: string, token: string, now: int, stamp: int, timeout: int) returns (i: nat)
    requires Code(us, Find(Some(cookie), Some(token), now, stamp), timeout) == 0
    ensures i < |us| && us[i].token == token && us[i].cookie == cookie && now - us[i].time <= timeout * 60
  {
    i := ByToken(us, token);
  }

  lemma {:induction false} ShownIsAccepted(us: seq<User>, name: string, token: string, cookie: string, time: int, now: int, stamp: int, timeout: int)
    requires TokensDistinct(us) && Shows(us, name, token, cookie, time) && now - time <= timeout * 60
    ensures Code(us, Find(Some(cookie), Some(token), now, stamp), timeout) == 0
  {
    var i :| 0 <= i < |us| && us[i].username == name && us[i].token == token && us[i].cookie == cookie && us[i].time == time;
    assert ByToken(us, token) == i;
  }

  /** The code the documentation of user_find gives, with an expired session taken to expire its cookie too. */
  function Documented(us: seq<User>, cookie: Option<string>, token: Option<string>, now: int, timeout: int): int {
    if token == None then 4
    else
      var i := ByToken(us, token.value);
      if i == |us| then 1
      else if now - us[i].time > timeout * 60 then 2
      else if cookie != Some(us[i].cookie) then 3
      else 0
  }

  /** us[i] is the user that the search for the token finds. */
  ghost predicate FirstOfToken(us: seq<User>, i: nat, token: string) {
    i < |us| && us[i].token == token && forall j :: 0 <= j < i ==> us[j].token != token
  }

  /** The token is known, and its session has expired or the cookie belongs to it. */
  ghost predicate ExpiredOrMatching(us: seq<User>, cookie: Option<string>, token: string, now: int, timeout: int) {
    exists i: nat ::
      FirstOfToken(us, i, token) && (now - us[i].time > timeout * 60 || cookie == Some(us[i].cookie))
  }

  /**
   user_find returns the documented code exactly when the token is missing, or known and either
   its session has expired or the cookie belongs to it.
   */
  lemma {:induction false} DocumentedCodeIff(us: seq<User>, cookie: Option<string>, token: Option<string>, now: int, stamp: int, timeout: int)
    ensures Code(us, Find(cookie, token, now, stamp), timeout) == Documented(us, cookie, token, now, timeout) <==>
            token == None || ExpiredOrMatching(us, cookie, token.value, now, timeout)
  {
    if token.Some? {
      var i := ByToken(us, token.value);
      assert i < |us| ==> FirstOfToken(us, i, token.value);
      assert forall j: nat :: FirstOfToken(us, j, token.value) ==> j == i;
    }
  }

  /** A bad cookie and a bad token are told apart neither from each other nor from an expired session. */
  lemma {:induction false} BadCookieAndToken(us: seq<User>, x: Settings)
    requires us == [User("user", "token", "cookie", 0, x)]
    ensures var a, b := Find(Some("other"), Some("token"), 0, 0), Find(Some("cookie"), Some("other"), 0, 0);
      && Documented(us, Some("other"), Some("token"), 0, 15) == 3 && Code(us, a, 15) == 2
      && Documented(us, Some("cookie"), Some("other"), 0, 15) == 1 && Code(us, b, 15) == 2
  {
    assert us[0].token == "token" && "other"[0] != "token"[0] && "other"[0] != "cookie"[0];
    assert ByToken(us, "token") == 0;
    assert ByToken(us, "other") == 1;
  }

  /** For the others it returns 2: a token that is not known, or a bad cookie for a live session. */
  lemma {:induction false} OtherwiseExpired(us: seq<User>, cookie: Option<string>, token: Option<string>, now: int, stamp: int, timeout: int)
    ensures var r := Code(us, Find(cookie, token, now, stamp), timeout);
      r != Documented(us, cookie, token, now, timeout) ==> r == 2 && Documented(us, cookie, token, now, timeout) in {1, 3}
  {
  }

  // ----- the mutex

  /** The call returns with the mutex held. */
  ghost predicate Takes(s: State, a: Action, timeout: int) {
    a.Add? || ((a.Find? || a.TokenUser?) && Code(s.users, a, timeout) == 0)
  }

  ghost predicate Drops(a: Action) {
    a.Release? || a.Remove?
  }

  lemma {:induction false} HeldStep(s: State, a: Action, timeout: int)
    requires Enabled(s, a)
    ensures Next(s, a, timeout).held.Some? <==> Takes(s, a, timeout) || (s.held.Some? && !Drops(a))
    ensures Takes(s, a, timeout) ==> s.held == None
    ensures Drops(a) ==> s.held.Some?
  {
  }

  /** Some call among the first k took the mutex, and none since dropped it. */
  ghost predicate Holding(run: seq<State>, h: seq<Action>, k: nat, timeout: int)
    requires k <= |h| < |run|
  {
    exists i :: 0 <= i < k && Takes(run[i], h[i], timeout) && forall j :: i < j < k ==> !Drops(h[j])
  }

  lemma {:induction false} HoldingStep(run: seq<State>, h: seq<Action>, k: nat, timeout: int)
    requires k < |h| < |run| && !(Takes(run[k], h[k], timeout) && Drops(h[k]))
    ensures Holding(run, h, k + 1, timeout) <==> Takes(run[k], h[k], timeout) || (Holding(run, h, k, timeout) && !Drops(h[k]))
  {
    if Holding(run, h, k + 1, timeout) {
      var i :| 0 <= i < k + 1 && Takes(run[i], h[i], timeout) && forall j :: i < j < k + 1 ==> !Drops(h[j]);
      assert i < k ==> !Drops(h[k]);
    }
    if Holding(run, h, k, timeout) && !Drops(h[k]) {
      var i :| 0 <= i < k && Takes(run[i], h[i], timeout) && forall j :: i < j < k ==> !Drops(h[j]);
      assert forall j :: i < j < k + 1 ==> !Drops(h[j]);
    }
  }

  /** The mutex is held exactly after user_add and after successful lookups, until it is dropped. */
  lemma {:induction false} HeldExactlyAfterTaking(run: seq<State>, h: seq<Action>, k: nat, timeout: int)
    requires Run(run, h, timeout) && k <= |h|
    ensures run[k].held.Some? <==> Holding(run, h, k, timeout)
  {
    if k > 0 {
      HeldExactlyAfterTaking(run, h, k - 1, timeout);
      HeldStep(run[k - 1], h[k - 1], timeout);
      HoldingStep(run, h, k - 1, timeout);
    }
  }

  ghost function Taken(run: seq<State>, h: seq<Action>, k: nat, timeout: int): nat
    requires k <= |h| < |run|
  {
    if k == 0 then 0 else Taken(run, h, k - 1, timeout) + if Takes(run[k - 1], h[k - 1], timeout) then 1 else 0
  }

  ghost function Dropped(h: seq<Action>, k: nat): nat
    requires k <= |h|
  {
    if k == 0 then 0 else Dropped(h, k - 1) + if Drops(h[k - 1]) then 1 else 0
  }

  /** Each hold is ended once. */
  lemma {:induction false} HoldsBalance(run: seq<State>, h: seq<Action>, k: nat, timeout: int)
    requires Run(run, h, timeout) && k <= |h|
    ensures Taken(run, h, k, timeout) == Dropped(h, k) + if run[k].held.Some? then 1 else 0
  {
    if k > 0 {
      HoldsBalance(run, h, k - 1, timeout);
      HeldStep(run[k - 1], h[k - 1], timeout);
    }
  }
}
