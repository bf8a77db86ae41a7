/** The calls on the session table (gsad.c) in place. Module Sessions says what they mean. */
module SessionCalls {
  import opened Options
  import opened Text
  import opened Sessions

  /** struct user, allocated */
  class UserCell {
    const username: string
    var token: string
    var cookie: string
    var time: int
    var settings: Settings

    ghost function Value(): User
      reads this
    {
      User(username, token, cookie, time, settings)
    }

    constructor (username: string, token: string, cookie: string, settings: Settings)
      ensures this.username == username && this.token == token && this.cookie == cookie && this.settings == settings
    {
      this.username, this.token, this.cookie, this.settings := username, token, cookie, settings;
      time := 0;
    }
  }

  ghost function ValuesOf(cells: seq<UserCell>): (us: seq<User>)
    reads cells
    ensures |us| == |cells| && forall i :: 0 <= i < |us| ==> us[i] == cells[i].Value()
  {
    seq(|cells|, i requires 0 <= i < |cells| reads cells => cells[i].Value())
  }

  /** The global users array and mutex. */
  class Table {
    const timeout: int
    var users: seq<UserCell>
    var locked: bool
    ghost var holder: UserCell?   // the user returned with the mutex held

    ghost function Values(): (us: seq<User>)
      reads `users, users
      ensures |us| == |users| && forall i :: 0 <= i < |us| ==> us[i] == users[i].Value()
    {
      ValuesOf(users)
    }

    ghost function View(): State
      reads `users, `holder, users
    {
      State(Values(), if holder == null then None else Some(holder.username))
    }

    ghost predicate NamesDiffer()
      reads `users
    {
      forall i, j :: 0 <= i < j < |users| ==> users[i].username != users[j].username
    }

    ghost predicate Valid()
      reads this
    {
      && NamesDiffer()
      && (holder != null ==> holder in users)
      && locked == (holder != null)
    }

    constructor (timeout: int)
      ensures Valid() && View() == State([], None) && this.timeout == timeout
    {
      this.timeout, users, locked, holder := timeout, [], false, null;
    }

    method FindName(name: string) returns (user: UserCell?, ghost i: nat)
      ensures i == ByName(Values(), name)
      ensures user == if i < |users| then users[i] else null
    {
      user, i := null, |users|;
      for index := 0 to |users|
        invariant user == null && ByName(Values(), name) == index + ByName(Values()[index..], name)
      {
        assert Values()[index..][0] == users[index].Value() && Values()[index..][1..] == Values()[index + 1..];
        if users[index].username == name {
          return users[index], index;
        }
      }
    }

    method FindToken(token: string) returns (user: UserCell?, ghost i: nat)
      ensures i == ByToken(Values(), token)
      ensures user == if i < |users| then users[i] else null
    {
      user, i := null, |users|;
      for index := 0 to |users|
        invariant user == null && ByToken(Values(), token) == index + ByToken(Values()[index..], token)
      {
        assert Values()[index..][0] == users[index].Value() && Values()[index..][1..] == Values()[index + 1..];
        if users[index].token == token {
          return users[index], index;
        }
      }
    }

    /** The part of user_add for a user that is in the table. */
    method LogInAgain(user: UserCell, x: Settings, token: string, cookie: string, now: int, ghost i: nat)
      requires NamesDiffer() && i < |users| && user == users[i]
      modifies user
      ensures Values() == old(Values())[i := User(user.username, token, cookie, now, LoggedIn(Some(old(user.settings)), x))]
    {
      user.token, user.cookie := token, cookie;
      user.settings := x.(severity := user.settings.severity);
      user.settings := user.settings.(language := LanguageOf(x.language));
      user.time := now;
    }

    /** The part of user_add for a new user. */
    method LogInNew(username: string, x: Settings, token: string, cookie: string, now: int) returns (user: UserCell)
      requires NamesDiffer() && forall i :: 0 <= i < |users| ==> Values()[i].username != username
      modifies `users
      ensures fresh(user) && user.username == username && users == old(users) + [user] && NamesDiffer()
      ensures Values() == old(Values()) + [User(username, token, cookie, now, LoggedIn(None, x))]
    {
      user := new UserCell(username, token, cookie, x);
      users := users + [user];
      user.settings := user.settings.(language := LanguageOf(x.language));
      user.time := now;
      assert forall i :: 0 <= i < |old(users)| ==> users[i] == old(users)[i] && users[i].Value() == old(Values())[i];
    }

    /** What a login comes to. */
    static lemma {:induction false} LoginIs(us: seq<User>, name: string, x: Settings, token: string, cookie: string, now: int, timeout: int)
      ensures var i, s := ByName(us, name), Next(State(us, None), Add(name, x, token, cookie, now), timeout);
        && s.held == Some(name)
        && (i < |us| ==> s.users == us[i := User(name, token, cookie, now, LoggedIn(Some(us[i].settings), x))])
        && (i == |us| ==> s.users == us + [User(name, token, cookie, now, LoggedIn(None, x))])
    {
    }

    static lemma {:induction false} LoginHolds(us: seq<User>, name: string, x: Settings, token: string, cookie: string, now: int, timeout: int)
      ensures Next(State(us, None), Add(name, x, token, cookie, now), timeout).held == Some(name)
    {
    }

    /** user_add; token and cookie are the two new identifiers, now is the clock. */
    method UserAdd(username: string, x: Settings, token: string, cookie: string, now: int) returns (user: UserCell)
      requires Valid() && !locked
      modifies this, users
      ensures Valid() && locked && user == holder && user.username == username
      ensures View() == Next(old(View()), Add(username, x, token, cookie, now), timeout)
    {
      LoginHolds(Values(), username, x, token, cookie, now, timeout);
      locked := true;
      user := LogIn(username, x, token, cookie, now);
      holder := user;
    }

    /** The search and the login, under the mutex. */
    method LogIn(username: string, x: Settings, token: string, cookie: string, now: int) returns (user: UserCell)
      requires NamesDiffer()
      modifies `users, users
      ensures NamesDiffer() && user in users && user.username == username
      ensures Values() == Next(State(old(Values()), None), Add(username, x, token, cookie, now), timeout).users
    {
      LoginIs(Values(), username, x, token, cookie, now, timeout);
      var item;
      ghost var i;
      item, i := FindName(username);
      if item != null {
        user := item;
        LogInAgain(user, x, token, cookie, now, i);
      } else {
        user := LogInNew(username, x, token, cookie, now);
      }
    }

    /** Stamps a user a lookup accepted, which is returned with the mutex held. */
    method Accept(user: UserCell, stamp: int, ghost i: nat)
      requires locked && holder == null && i < |users| && user == users[i]
      requires NamesDiffer()
      modifies user`time, `holder
      ensures Valid() && locked && holder == user
      ensures View() == Stamped(old(Values()), Some(i), stamp)
    {
      user.time := stamp;
      holder := user;
      assert View().users == Stamped(old(Values()), Some(i), stamp).users;
    }

    /** What a lookup by token and cookie comes to. */
    static lemma {:induction false} LookupIs(us: seq<User>, cookie: Option<string>, token: string, now: int, stamp: int, timeout: int)
      ensures var a, i := Find(cookie, Some(token), now, stamp), ByToken(us, token);
        if i < |us| && cookie == Some(us[i].cookie) && now - us[i].time <= timeout * 60
        then Code(us, a, timeout) == 0 && Next(State(us, None), a, timeout) == Stamped(us, Some(i), stamp)
        else Code(us, a, timeout) == 2 && Next(State(us, None), a, timeout) == State(us, None)
    {
    }

    /** user_find; the clock is read twice. */
    method UserFind(cookie: Option<string>, token: Option<string>, now: int, stamp: int)
      returns (ret: int, userReturn: UserCell?)
      requires Valid() && (token != None ==> !locked)
      modifies `locked, `holder, users`time
      ensures Valid() && users == old(users) && ret == Code(old(Values()), Find(cookie, token, now, stamp), timeout)
      ensures View() == Next(old(View()), Find(cookie, token, now, stamp), timeout)
      ensures if ret == 0 then userReturn != null && holder == userReturn else userReturn == null && holder == old(holder)
    {
      userReturn := null;
      if token == None {
        return 4, null;
      }
      locked := true;
      var user;
      ghost var i;
      user, i := FindToken(token.value);
      LookupIs(Values(), cookie, token.value, now, stamp, timeout);
      if user != null && (cookie == None || user.cookie != cookie.value) {
        ret := if now - user.time > timeout * 60 then 2 else 3;
        user := null;
      }
      if user != null {
        if now - user.time > timeout * 60 {
          ret := 2;
        } else {
          ret, userReturn := 0, user;
          Accept(user, stamp, i);
          return;
        }
      } else {
        ret := 2;
      }
      locked := false;
    }

    /** What a lookup by token comes to. */
    static lemma {:induction false} TokenUserIs(us: seq<User>, token: string, now: int, stamp: int, timeout: int)
      ensures var a, i := TokenUser(token, now, stamp), ByToken(us, token);
        if i < |us| && now - us[i].time <= timeout * 60
        then Code(us, a, timeout) == 0 && Next(State(us, None), a, timeout) == Stamped(us, Some(i), stamp)
        else Code(us, a, timeout) == (if i < |us| then 2 else 1) && Next(State(us, None), a, timeout) == State(us, None)
    {
    }

    /** token_user */
    method TokenUserOf(token: string, now: int, stamp: int) returns (ret: int, userReturn: UserCell?)
      requires Valid() && !locked
      modifies `locked, `holder, users`time
      ensures Valid() && users == old(users) && ret == Code(old(Values()), TokenUser(token, now, stamp), timeout)
      ensures View() == Next(old(View()), TokenUser(token, now, stamp), timeout)
      ensures if ret == 0 then holder == userReturn == users[ByToken(old(Values()), token)] else userReturn == null && holder == null
    {
      userReturn := null;
      locked := true;
      var user;
      ghost var i;
      user, i := FindToken(token);
      TokenUserIs(Values(), token, now, stamp, timeout);
      if user != null {
        if now - user.time > timeout * 60 {
          ret := 2;
        } else {
          ret, userReturn := 0, user;
          Accept(user, stamp, i);
          return;
        }
      } else {
        ret := 1;
      }
      locked := false;
    }

    /** g_ptr_array_remove: the first element that is this pointer. */
    method RemovePointer(user: UserCell, ghost k: nat)
      requires k < |users| && users[k] == user
      requires NamesDiffer()
      modifies `users
      ensures users == old(users)[..k] + old(users)[k + 1..]
      ensures Values() == WithoutUser(old(Values()), k) && NamesDiffer()
    {
      var i := 0;
      while users[i] != user
        invariant 0 <= i <= k
        decreases k - i
      {
        i := i + 1;
      }
      assert i == k;
      WithoutKeepsNames(users, k);
      users := users[..i] + users[i + 1..];
    }

    static lemma {:induction false} WithoutKeepsNames(us: seq<UserCell>, k: nat)
      requires k < |us| && forall i, j :: 0 <= i < j < |us| ==> us[i].username != us[j].username
      ensures var vs := us[..k] + us[k + 1..];
        forall i, j :: 0 <= i < j < |vs| ==> vs[i].username != vs[j].username
    {
      var vs := us[..k] + us[k + 1..];
      assert forall i :: 0 <= i < |vs| ==> vs[i] == us[if i < k then i else i + 1];
    }

    /** Stamping a user and then removing it is removing it. */
    static lemma {:induction false} RemoveStamped(us: seq<User>, i: nat, stamp: int)
      requires i < |us|
      ensures WithoutUser(Stamped(us, Some(i), stamp).users, i) == WithoutUser(us, i)
    {
    }

    /** Removing by token is looking the token up and removing the user that was found. */
    static lemma {:induction false} RemovedByToken(us: seq<User>, token: string, now: int, stamp: int, timeout: int)
      ensures var found, removal := TokenUser(token, now, stamp), TokenUserRemove(token, now, stamp);
        var s, k := Next(State(us, None), found, timeout), ByToken(us, token);
        if Code(us, found, timeout) == 0
        then k < |us| && k < |s.users| && Code(us, removal, timeout) == 0
             && Next(State(us, None), removal, timeout) == State(WithoutUser(s.users, k), None)
        else s == State(us, None) == Next(State(us, None), removal, timeout) && Code(us, removal, timeout) == -1
    {
      var k := ByToken(us, token);
      if Code(us, TokenUser(token, now, stamp), timeout) == 0 {
        RemoveStamped(us, k, stamp);
      }
    }

    /** token_user_remove */
    method RemoveByToken(token: string, now: int, stamp: int) returns (ret: int)
      requires Valid() && !locked
      modifies this, users
      ensures Valid() && !locked && ret == Code(old(Values()), TokenUserRemove(token, now, stamp), timeout)
      ensures View() == Next(old(View()), TokenUserRemove(token, now, stamp), timeout)
    {
      ghost var us := Values();
      RemovedByToken(us, token, now, stamp, timeout);
      var r, user := TokenUserOf(token, now, stamp);
      if r != 0 {
        return -1;
      }
      RemovePointer(user, ByToken(us, token));
      locked, holder := false, null;
      ret := 0;
    }

    /** user_release */
    method UserRelease(user: UserCell)
      requires Valid() && locked && user == holder
      modifies `locked, `holder
      ensures Valid() && !locked && View() == Next(old(View()), Release, timeout)
    {
      locked, holder := false, null;
    }

    /** The user whose holder has the mutex is the one of that name. */
    lemma {:induction false} HolderFound()
      requires Valid() && holder != null
      ensures ByName(Values(), holder.username) < |users| && users[ByName(Values(), holder.username)] == holder
    {
      var i :| 0 <= i < |users| && users[i] == holder;
      assert Values()[i].username == holder.username;
    }

    /** user_remove */
    method UserRemove(user: UserCell)
      requires Valid() && locked && user == holder
      modifies this
      ensures Valid() && !locked && View() == Next(old(View()), Remove, timeout)
    {
      HolderFound();
      RemovePointer(user, ByName(Values(), user.username));
      locked, holder := false, null;
    }

    /** user_set_timezone, user_set_password, user_set_severity, user_set_language(_code), user_set_autorefresh */
    method UserSet(name: string, x: Setting) returns (ret: int)
      requires Valid() && !locked
      modifies `locked, users`settings
      ensures Valid() && !locked && ret == Code(old(Values()), Change(name, x), timeout)
      ensures View() == Next(old(View()), Change(name, x), timeout)
    {
      ChangeHoldsNothing(Values(), name, x, timeout);
      locked := true;
      ret := Reset(name, x);
      locked := false;
    }

    static lemma {:induction false} ChangeHoldsNothing(us: seq<User>, name: string, x: Setting, timeout: int)
      ensures Next(State(us, None), Change(name, x), timeout).held == None
    {
    }

    /** The search and the assignment, under the mutex. */
    method Reset(name: string, x: Setting) returns (ret: int)
      requires NamesDiffer()
      modifies users`settings
      ensures ret == Code(old(Values()), Change(name, x), timeout)
      ensures Values() == Next(State(old(Values()), None), Change(name, x), timeout).users
    {
      ret := 1;
      var item;
      ghost var i;
      item, i := FindName(name);
      if item != null {
        Assign(item, x, i);
        ret := 0;
      }
    }

    /** The assignment of a user_set_ function. */
    method Assign(item: UserCell, x: Setting, ghost i: nat)
      requires NamesDiffer() && i < |users| && item == users[i]
      modifies item`settings
      ensures Values() == old(Values())[i := old(Values())[i].(settings := Changed(old(item.settings), x))]
    {
      item.settings := Changed(item.settings, x);
    }
  }
}
