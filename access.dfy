/**
 * The GraphQL request context and the gates the resolvers apply. The context builder reads the
 * authorization header, decodes the bearer token through the `verify` oracle (which fails with
 * `None` where the token is malformed, forged or expired) and looks the user up; every failure
 * degrades to an anonymous context instead of an error.
 */
module Access {
  import opened Wrappers
  import opened Constants
  import opened Accounts

  /** JavaScript's `s.split(sep)` for a one-character separator. */
  function Split(s: string, sep: char): (r: seq<string>)
    ensures |r| >= 1
    ensures forall i :: 0 <= i < |r| ==> sep !in r[i]
  {
    if s == [] then [""]
    else
      var rest := Split(s[1..], sep);
      if s[0] == sep then [""] + rest
      else [[s[0]] + rest[0]] + rest[1..]
  }

  /** `parts.join(sep)`. */
  function Join(parts: seq<string>, sep: char): string
    requires |parts| >= 1
  {
    if |parts| == 1 then parts[0] else parts[0] + [sep] + Join(parts[1..], sep)
  }

  /** Splitting loses nothing: joining the pieces with the separator gives the string back. */
  lemma {:induction false} SplitJoin(s: string, sep: char)
    ensures Join(Split(s, sep), sep) == s
  {
    if s != [] {
      var rest := Split(s[1..], sep);
      SplitJoin(s[1..], sep);
      if s[0] == sep {
        assert ([""] + rest)[1..] == rest;
      } else if |rest| == 1 {
        assert s == [s[0]] + s[1..];
      } else {
        var r := [[s[0]] + rest[0]] + rest[1..];
        assert r[1..] == rest[1..];
        assert Join(rest, sep) == rest[0] + [sep] + Join(rest[1..], sep);
        assert s == [s[0]] + s[1..];
      }
    }
  }

  /** A word free of the separator, then the separator, splits into that word and the pieces of the rest. */
  lemma {:induction false} SplitAfterWord(w: string, t: string, sep: char)
    requires sep !in w
    ensures Split(w + [sep] + t, sep) == [w] + Split(t, sep)
  {
    if w == [] {
      assert w + [sep] + t == [sep] + t;
      assert ([sep] + t)[1..] == t;
    } else {
      var s := w + [sep] + t;
      assert s[0] == w[0] && s[1..] == w[1..] + [sep] + t;
      SplitAfterWord(w[1..], t, sep);
      assert [w[0]] + w[1..] == w;
    }
  }

  predicate StartsWith(s: string, prefix: string)
  {
    |prefix| <= |s| && s[..|prefix|] == prefix
  }

  /** The second space-separated field of the header, `authHeader.split(' ')[1]`, when there is one. */
  function BearerToken(header: string): (t: Option<string>)
    ensures t.Some? ==> ' ' !in t.value
  {
    var parts := Split(header, ' ');
    if |parts| >= 2 then Some(parts[1]) else None
  }

  /** Behind `"Bearer "` the token is the text up to the next space; a second space right after the scheme gives the empty token. */
  lemma BearerTokenOf(t: string, rest: string)
    requires ' ' !in t
    ensures BearerToken("Bearer " + t) == Some(t)
    ensures BearerToken("Bearer " + t + " " + rest) == Some(t)
    ensures BearerToken("Bearer  " + rest) == Some("")
  {
    assert "Bearer " + t == "Bearer" + [' '] + t;
    SplitAfterWord("Bearer", t, ' ');
    SplitOfSpaceFree(t);
    assert "Bearer " + t + " " + rest == "Bearer" + [' '] + (t + [' '] + rest);
    SplitAfterWord("Bearer", t + [' '] + rest, ' ');
    SplitAfterWord(t, rest, ' ');
    assert "Bearer  " + rest == "Bearer" + [' '] + ("" + [' '] + rest);
    SplitAfterWord("Bearer", "" + [' '] + rest, ' ');
    SplitAfterWord("", rest, ' ');
  }

  /** A string without the separator is a single piece. */
  lemma {:induction false} SplitOfSpaceFree(t: string)
    requires ' ' !in t
    ensures Split(t, ' ') == [t]
  {
    if t != [] {
      SplitOfSpaceFree(t[1..]);
      assert [t[0]] + t[1..] == t;
    }
  }

  /** A header that starts with the scheme always has a second field. */
  lemma SchemeGivesToken(header: string)
    requires StartsWith(header, "Bearer ")
    ensures BearerToken(header).Some?
  {
    var t := header[|"Bearer "|..];
    assert header == "Bearer" + [' '] + t;
    SplitAfterWord("Bearer", t, ' ');
  }

  /**
   * `createContext`: the context user is the stored, active user whose id the verified token
   * claims, and in every other case (no header, another scheme, a token that does not verify,
   * no such user, an inactive user) the context is anonymous. It never fails.
   */
  function CreateContext(header: Option<string>, verify: string -> Option<Claims>, users: seq<User>): (ctx: Option<User>)
    ensures header.None? || !StartsWith(header.value, "Bearer ") ==> ctx.None?
    ensures ctx.Some? ==> ctx.value in users && ctx.value.isActive
    ensures ctx.Some? <==>
      && header.Some? && StartsWith(header.value, "Bearer ")
      && BearerToken(header.value).Some? && verify(BearerToken(header.value).value).Some?
      && exists u :: FindById(users, verify(BearerToken(header.value).value).value.userId) == Some(u) && u.isActive
    ensures ctx.Some? ==> ctx.value.id == verify(BearerToken(header.value).value).value.userId
  {
    if header.Some? && StartsWith(header.value, "Bearer ") then
      var token := BearerToken(header.value);
      if token.None? then None
      else
        var decoded := verify(token.value);
        if decoded.None? then None
        else
          var u := FindById(users, decoded.value.userId);
          if u.Some? && u.value.isActive then u else None
    else None
  }

  /** The context's role comes from the stored user, not from the token: two tokens claiming the same id give the same context. */
  lemma ContextRoleFromStore(header: string, v1: string -> Option<Claims>, v2: string -> Option<Claims>, users: seq<User>)
    requires StartsWith(header, "Bearer ")
    requires var t := BearerToken(header);
      t.Some? && v1(t.value).Some? && v2(t.value).Some? && v1(t.value).value.userId == v2(t.value).value.userId
    ensures CreateContext(Some(header), v1, users) == CreateContext(Some(header), v2, users)
  {
  }

  /** On an indexed user collection the context is exactly the active user at the claimed position. */
  lemma ContextOnIndexedUsers(header: string, verify: string -> Option<Claims>, users: seq<User>)
    requires Indexed(users) && StartsWith(header, "Bearer ")
    requires var t := BearerToken(header); t.Some? && verify(t.value).Some?
    ensures var id := verify(BearerToken(header).value).value.userId;
      CreateContext(Some(header), verify, users) ==
        if 0 <= id < |users| && users[id].isActive then Some(users[id]) else None
  {
    FindByIdIndexed(users, verify(BearerToken(header).value).value.userId);
  }

  /** Why a gate refuses a resolver call. */
  datatype AccessError = AuthenticationRequired | AdminAccessRequired

  /** `if (!context.user) throw 'Authentication required'`. */
  function RequireUser(ctx: Option<User>): (r: Result<User, AccessError>)
    ensures r.Ok? <==> ctx.Some?
    ensures r.Ok? ==> r.value == ctx.value
    ensures r.Err? ==> r.error == AuthenticationRequired
  {
    if ctx.None? then Err(AuthenticationRequired) else Ok(ctx.value)
  }

  /** `if (!context.user || context.user.role !== 'Admin') throw 'Admin access required'`: an exact string comparison. */
  function RequireAdmin(ctx: Option<User>): (r: Result<User, AccessError>)
    ensures r.Ok? <==> ctx.Some? && RoleName(ctx.value.role) == "Admin"
    ensures r.Ok? ==> r.value == ctx.value && r.value.role == Admin
    ensures r.Err? ==> r.error == AdminAccessRequired
  {
    if ctx.None? || RoleName(ctx.value.role) != "Admin" then Err(AdminAccessRequired) else Ok(ctx.value)
  }

  /**
   * `register` stores the role the request names: an account registered as `Admin` passes the
   * admin gate as soon as a token for it is presented.
   */
  lemma SelfRegisteredAdmin(users: seq<User>, name: string, email: string, password: string,
                            header: string, verify: string -> Option<Claims>)
    requires Indexed(users) && StartsWith(header, "Bearer ")
    requires var t := BearerToken(header); t.Some? && verify(t.value).Some? && verify(t.value).value.userId == |users|
    ensures var u := NewUser(|users|, name, email, password, Admin);
      RequireAdmin(CreateContext(Some(header), verify, users + [u])) == Ok(u)
  {
    var u := NewUser(|users|, name, email, password, Admin);
    assert Indexed(users + [u]) by {
      assert forall i :: 0 <= i < |users| ==> (users + [u])[i] == users[i];
    }
    ContextOnIndexedUsers(header, verify, users + [u]);
  }

  /** A member is never let through the admin gate, and whoever passes it also passes the user gate. */
  lemma AdminGateStricter(ctx: Option<User>)
    ensures ctx.Some? && ctx.value.role == Member ==> RequireAdmin(ctx).Err?
    ensures RequireAdmin(ctx).Ok? ==> RequireUser(ctx) == RequireAdmin(ctx)
  {
  }
}
