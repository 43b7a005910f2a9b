/** Who may do what in the file store (PA3): which requests a server accepts, for whom, and where they lead. */
module StoreAccess {
  import opened StoreRequests

  /** The line begins with the words `kind` and `user:password`; the rest is empty or goes on with a blank. */
  ghost predicate Login(line: string, kind: string, user: string, password: string, rest: string) {
    && line == kind + " " + user + ":" + password + rest
    && ' ' !in kind && ' ' !in user && ' ' !in password && ':' !in user
    && (rest == [] || rest[0] == ' ')
  }

  /** The second word of the line names a user and gives that user's password. */
  ghost predicate LoggedIn(users: map<string, string>, line: string, user: string) {
    && user in users && user != [] && users[user] != []
    && exists kind, rest :: Login(line, kind, user, users[user], rest)
  }

  ghost predicate Authorised(users: map<string, string>, line: string) {
    exists user :: LoggedIn(users, line, user)
  }

  /** The first word of the line */
  ghost predicate FirstWord(line: string, kind: string) {
    ' ' !in kind && |kind| < |line| && line[..|kind|] == kind && line[|kind|] == ' '
  }

  /** The kinds of request */
  predicate Known(kind: string) {
    kind in ["GET", "LIST", "PUT", "MKDIR"]
  }

  predicate NoDots(s: string) {
    forall i :: 0 <= i < |s| - 1 ==> !(s[i] == '.' && s[i + 1] == '.')
  }

  function KindOf(r: Request): string {
    match r
    case List(_) => "LIST"
    case Mkdir(_) => "MKDIR"
    case Get(_, _) => "GET"
    case Put(_, _, _, _) => "PUT"
    case Bad(_) => ""
  }

  /** The request stays in the user's own directory. */
  ghost predicate Confined(r: Request, user: string)
    requires !r.Bad?
  {
    && "/" + user + "/" <= r.path && NoDots(r.path)
    && (r.Get? || r.Put? ==> NoDots(r.filename))
  }

  // ---------------------------------------------------------------------------
  // What the search for a character finds

  lemma {:induction false} FindFirst(s: string, c: char, start: nat)
    requires |s| < NPOS
    ensures var r := Find(s, c, start);
      forall i :: start <= i < |s| && (r == NPOS || i < r) ==> s[i] != c
    decreases if start < |s| then |s| - start else 0
  {
    if start < |s| && s[start] != c {
      FindFirst(s, c, start + 1);
    }
  }

  lemma NotIn(s: string, c: char, from: nat, to: nat)
    requires from <= to <= |s| && forall i :: from <= i < to ==> s[i] != c
    ensures c !in s[from..to]
  {
    forall i | 0 <= i < to - from
      ensures s[from..to][i] != c
    {
      assert s[from..to][i] == s[from + i];
    }
  }

  /** Where the parser stands after a successful login */
  ghost predicate Passed(users: map<string, string>, line: string, end0: nat, delim: nat, end1: nat)
    requires |line| < NPOS
  {
    && end0 == Find(line, ' ', 0) != NPOS
    && end1 == Find(line, ' ', end0 + 1) && delim == Find(line, ':', end0 + 1)
    && end0 + 1 <= delim < end1 && delim != NPOS
    && var user, password := Substr(line, end0 + 1, delim - end0 - 1), Substr(line, delim + 1, end1 - delim - 1);
      user != [] && password != [] && user in users && users[user] == password
  }

  /** The words the parser cut out are the words of the line. */
  lemma PassedLogin(users: map<string, string>, line: string, end0: nat, delim: nat, end1: nat)
    requires |line| < NPOS && Passed(users, line, end0, delim, end1)
    ensures var user := line[end0 + 1..delim];
      && LoggedIn(users, line, user) && user == Substr(line, end0 + 1, delim - end0 - 1)
  {
    FindFirst(line, ' ', 0);
    FindFirst(line, ' ', end0 + 1);
    FindFirst(line, ':', end0 + 1);
    hide Find;
    var stop := if end1 == NPOS then |line| else end1;
    var kind, user, password, rest := line[..end0], line[end0 + 1..delim], line[delim + 1..stop], line[stop..];
    NotIn(line, ' ', 0, end0);
    assert line[0..end0] == kind;
    NotIn(line, ' ', end0 + 1, delim);
    NotIn(line, ':', end0 + 1, delim);
    NotIn(line, ' ', delim + 1, stop);
    CutOut(line, end0, delim, stop);
    assert Login(line, kind, user, password, rest);
    hide Login;
    assert Substr(line, end0 + 1, delim - end0 - 1) == user;
    assert Substr(line, delim + 1, end1 - delim - 1) == password;
  }

  lemma CutOut(line: string, end0: nat, delim: nat, stop: nat)
    requires end0 < delim < stop <= |line| && line[end0] == ' ' && line[delim] == ':'
    ensures line == line[..end0] + " " + line[end0 + 1..delim] + ":" + line[delim + 1..stop] + line[stop..]
  {
    assert line[..end0] + " " == line[..end0 + 1];
    assert line[..end0 + 1] + line[end0 + 1..delim] + ":" == line[..delim + 1];
    assert line[..delim + 1] + line[delim + 1..stop] == line[..stop];
  }

  /** And the other way round. */
  lemma LoginPassed(users: map<string, string>, line: string, kind: string, user: string, password: string,
                    rest: string)
    requires |line| < NPOS && Login(line, kind, user, password, rest)
    requires user != [] && password != [] && user in users && users[user] == password
    ensures var end0 := |kind|;
      var delim := end0 + 1 + |user|;
      Passed(users, line, end0, delim, if rest == [] then NPOS else delim + 1 + |password|)
  {
    var end0 := |kind|;
    var delim := end0 + 1 + |user|;
    var stop := delim + 1 + |password|;
    Places(line, kind, user, password, rest);
    FindFrom(line, ' ', 0, end0);
    FindFrom(line, ':', end0 + 1, delim);
    if rest == [] {
      FindNone(line, ' ', end0 + 1);
    } else {
      FindFrom(line, ' ', end0 + 1, stop);
    }
  }

  lemma Places(line: string, kind: string, user: string, password: string, rest: string)
    requires Login(line, kind, user, password, rest)
    ensures var end0 := |kind|;
      var delim := end0 + 1 + |user|;
      var stop := delim + 1 + |password|;
      && |line| == stop + |rest| && line[end0] == ' ' && line[delim] == ':' && (rest != [] ==> line[stop] == ' ')
      && (forall i :: 0 <= i < end0 ==> line[i] != ' ') && (forall i :: end0 < i < stop ==> line[i] != ' ')
      && (forall i :: end0 < i < delim ==> line[i] != ':')
      && line[..end0] == kind && line[end0 + 1..delim] == user && line[delim + 1..stop] == password
  {
    var end0 := |kind|;
    var delim := end0 + 1 + |user|;
    var stop := delim + 1 + |password|;
    assert forall i :: 0 <= i < end0 ==> line[i] == kind[i];
    assert forall i :: 0 <= i < |user| ==> line[end0 + 1 + i] == user[i];
    assert forall i :: 0 <= i < |password| ==> line[delim + 1 + i] == password[i];
    forall i | end0 < i < stop
      ensures line[i] != ' ' && (i < delim ==> line[i] != ':')
    {
      if i < delim {
        assert line[i] == user[i - end0 - 1];
      } else if i > delim {
        assert line[i] == password[i - delim - 1];
      }
    }
  }

  // ---------------------------------------------------------------------------
  // What is granted and what is refused

  /** Only requests of a known kind get anywhere. */
  lemma ParseWord(users: map<string, string>, m: string) returns (kind: string)
    requires |m| < NPOS && !Parse(users, m).Bad?
    ensures Known(kind) && FirstWord(Line(m), kind)
  {
    hide ParsePath, Substr;
    LineLength(m);
    var line := Line(m);
    var end0 := Find(line, ' ', 0);
    kind := line[..end0];
    FindFirst(line, ' ', 0);
    NotIn(line, ' ', 0, end0);
    assert line[0..end0] == kind;
  }

  /** A request of a known kind goes on exactly if the login is in order. */
  lemma ParseKnown(users: map<string, string>, m: string, kind: string)
    requires |m| < NPOS && FirstWord(Line(m), kind) && Known(kind)
    ensures |Line(m)| <= |m|
    ensures var line, start := Line(m), |kind| + 1;
      var end1, delim := Find(line, ' ', start), Find(line, ':', start);
      if Passed(users, line, |kind|, delim, end1)
      then Parse(users, m) == ParsePath(m, line, kind, Substr(line, start, delim - start), (end1 + 1) % (NPOS + 1))
      else Parse(users, m) == Bad(BAD_USER)
  {
    hide Find, ParsePath, Substr, FirstWord;
    LineLength(m);
    FirstFound(Line(m), kind);
  }

  lemma {:induction false} DotsSame(s: string)
    ensures HasDots(s) <==> !NoDots(s)
  {
  }

  lemma PathPrefix(user: string, path: string)
    ensures "/" + user + "/" <= NormalPath(user, path)
  {
  }

  /** What comes after the login keeps to the user's directory and has errors of its own. */
  lemma PathConfined(m: string, line: string, kind: string, user: string, start2: nat)
    requires |line| <= |m| < NPOS && Known(kind)
    ensures var r := ParsePath(m, line, kind, user, start2);
      if r.Bad? then r.error != BAD_USER else KindOf(r) == kind && Confined(r, user)
  {
    hide Find, Substr, NormalPath, HasDots, NoDots;
    var end2 := Find(line, ' ', start2);
    if end2 > start2 {
      var path := NormalPath(user, Substr(line, start2, end2 - start2));
      PathPrefix(user, Substr(line, start2, end2 - start2));
      DotsSame(path);
      var start3 := (end2 + 1) % (NPOS + 1);
      var end3 := Find(line, ' ', start3);
      if end3 > start3 {
        DotsSame(Substr(line, start3, end3 - start3));
      }
    }
  }

  /** Whatever is not refused comes from a user of the server with the right password, is what the first word says,
      and stays in that user's directory. */
  lemma Granted(users: map<string, string>, m: string) returns (user: string)
    requires |m| < NPOS && !Parse(users, m).Bad?
    ensures LoggedIn(users, Line(m), user)
    ensures var r := Parse(users, m); Confined(r, user) && FirstWord(Line(m), KindOf(r))
  {
    hide Find, ParsePath, Substr, LoggedIn, Confined, Passed, Known, Parse, Line, FirstWord, KindOf;
    var kind := ParseWord(users, m);
    ParseKnown(users, m, kind);
    var line := Line(m);
    var end1, delim := Find(line, ' ', |kind| + 1), Find(line, ':', |kind| + 1);
    PassedRange(users, line, |kind|, delim, end1);
    user := line[|kind| + 1..delim];
    PassedLogin(users, line, |kind|, delim, end1);
    PathConfined(m, line, kind, user, (end1 + 1) % (NPOS + 1));
  }

  lemma PassedRange(users: map<string, string>, line: string, end0: nat, delim: nat, end1: nat)
    requires |line| < NPOS && Passed(users, line, end0, delim, end1)
    ensures end0 < delim < |line| && end0 < |line| && line[end0] == ' '
  {
  }

  /** A request of a known kind is refused for its user or password exactly if its second word is not a user's
      name, a colon and that user's password. */
  lemma RefusedExactly(users: map<string, string>, m: string, kind: string)
    requires |m| < NPOS && FirstWord(Line(m), kind) && Known(kind)
    ensures Parse(users, m) == Bad(BAD_USER) <==> !Authorised(users, Line(m))
  {
    hide Find, LoggedIn, Passed, Line, Parse, FirstWord;
    LineLength(m);
    var line := Line(m);
    RefusedUnlessPassed(users, m, kind);
    var end1, delim := Find(line, ' ', |kind| + 1), Find(line, ':', |kind| + 1);
    if Passed(users, line, |kind|, delim, end1) {
      PassedRange(users, line, |kind|, delim, end1);
      PassedLogin(users, line, |kind|, delim, end1);
    } else {
      FirstFound(line, kind);
      forall user | LoggedIn(users, line, user)
        ensures false
      {
        AuthorisedPassed(users, line, user);
      }
    }
  }

  lemma RefusedUnlessPassed(users: map<string, string>, m: string, kind: string)
    requires |m| < NPOS && FirstWord(Line(m), kind) && Known(kind)
    ensures var line := Line(m);
      && |line| <= |m|
      && (Parse(users, m) == Bad(BAD_USER) <==>
        !Passed(users, line, |kind|, Find(line, ':', |kind| + 1), Find(line, ' ', |kind| + 1)))
  {
    hide Find, ParsePath, Substr, Passed, Line, Parse, FirstWord, Confined, KindOf, Known;
    ParseKnown(users, m, kind);
    var line := Line(m);
    var end1, delim := Find(line, ' ', |kind| + 1), Find(line, ':', |kind| + 1);
    if Passed(users, line, |kind|, delim, end1) {
      PassedRange(users, line, |kind|, delim, end1);
      PathConfined(m, line, kind, Substr(line, |kind| + 1, delim - |kind| - 1), (end1 + 1) % (NPOS + 1));
    }
  }

  lemma FirstFound(line: string, kind: string)
    requires |line| < NPOS && FirstWord(line, kind)
    ensures Find(line, ' ', 0) == |kind| && line[..|kind|] == kind
  {
    assert forall i :: 0 <= i < |kind| ==> line[i] == line[..|kind|][i];
    FindFrom(line, ' ', 0, |kind|);
  }

  lemma AuthorisedPassed(users: map<string, string>, line: string, user: string)
    requires |line| < NPOS && LoggedIn(users, line, user)
    ensures var end0 := Find(line, ' ', 0);
      end0 != NPOS && Passed(users, line, end0, Find(line, ':', end0 + 1), Find(line, ' ', end0 + 1))
  {
    hide Login, Substr, Find;
    var kind, rest :| Login(line, kind, user, users[user], rest);
    LoginPassed(users, line, kind, user, users[user], rest);
  }

  /** A line has one reading. */
  lemma LoginUnique(line: string, kind: string, user: string, password: string, rest: string,
                    kind': string, user': string, password': string, rest': string)
    requires Login(line, kind, user, password, rest) && Login(line, kind', user', password', rest')
    ensures kind == kind' && user == user' && password == password'
  {
    Places(line, kind, user, password, rest);
    Places(line, kind', user', password', rest');
  }

  /** What a client with the wrong password, or unknown to the server, asks for is refused. */
  lemma WrongPassword(users: map<string, string>, f: File, piece: nat, data: Bytes)
    requires Token(f.user) && Token(f.password) && ':' !in f.user && Token(f.path) && Token(f.name) && piece < 4
    requires f.user !in users || users[f.user] != f.password
    requires |GetMessage(f)| < NPOS && |PutMessage(f, piece, data)| < NPOS
    ensures Parse(users, GetMessage(f)) == Bad(BAD_USER) && Parse(users, PutMessage(f, piece, data)) == Bad(BAD_USER)
  {
    hide Parse, Line, LoggedIn;
    var get := GetMessage(f);
    LineIs(get, []);
    WrongLine(users, f, "GET", f.path + " " + f.name, get);
    RefusedExactly(users, get, "GET");
    var put := "PUT" + " " + Credentials(f) + " " + f.path + " " + f.name + " " + [Decimal.Digit(piece)];
    assert PutMessage(f, piece, data) == put + "\n" + data;
    LineIs(put, data);
    WrongLine(users, f, "PUT", f.path + " " + f.name + " " + [Decimal.Digit(piece)], put);
    RefusedExactly(users, PutMessage(f, piece, data), "PUT");
  }

  lemma WrongLine(users: map<string, string>, f: File, kind: string, more: string, line: string)
    requires Token(f.user) && Token(f.password) && ':' !in f.user && kind in ["GET", "PUT"]
    requires f.user !in users || users[f.user] != f.password
    requires line == kind + " " + Credentials(f) + " " + more
    ensures FirstWord(line, kind) && !Authorised(users, line)
  {
    assert line[..|kind|] == kind && line[|kind|] == ' ';
    assert line == kind + " " + f.user + ":" + f.password + (" " + more);
    assert Login(line, kind, f.user, f.password, " " + more);
    forall user | LoggedIn(users, line, user)
      ensures false
    {
      var k, rest :| Login(line, k, user, users[user], rest);
      LoginUnique(line, kind, f.user, f.password, " " + more, k, user, users[user], rest);
    }
  }

  // ---------------------------------------------------------------------------
  // Directories of different users

  /** One user's directory lies inside the other's. */
  ghost predicate Nested(u: string, v: string) {
    u + "/" <= v + "/" || v + "/" <= u + "/"
  }

  /** The paths of two users can coincide exactly if one's directory lies inside the other's, which takes a slash
      in a user's name. */
  lemma PathsMeet(u: string, v: string)
    requires u != v
    ensures (exists p, q :: NormalPath(u, p) == NormalPath(v, q)) <==> Nested(u, v)
    ensures '/' !in u && '/' !in v ==> !Nested(u, v)
  {
    hide NormalPath;
    if Nested(u, v) {
      if u + "/" <= v + "/" {
        var p := Deeper(u, v);
        assert NormalPath(u, p) == NormalPath(v, "");
      } else {
        var q := Deeper(v, u);
        assert NormalPath(u, "") == NormalPath(v, q);
      }
    } else {
      forall p, q
        ensures NormalPath(u, p) != NormalPath(v, q)
      {
        PathPrefix(u, p);
        PathPrefix(v, q);
        if NormalPath(u, p) == NormalPath(v, q) {
          PrefixesNested(u, v, NormalPath(u, p));
        }
      }
    }
    if u + "/" <= v + "/" {
      NestedSlash(u, v);
    }
    if v + "/" <= u + "/" {
      NestedSlash(v, u);
    }
  }

  lemma SameEnd(u: string, v: string)
    requires u + "/" == v + "/"
    ensures u == v
  {
    assert u == (u + "/")[..|u|] && v == (v + "/")[..|v|];
  }

  lemma Longer(u: string, v: string)
    requires u != v && u + "/" <= v + "/"
    ensures |u| < |v|
  {
    if |u| == |v| {
      SameEnd(u, v);
    }
  }

  lemma Deeper(u: string, v: string) returns (p: string)
    requires u != v && u + "/" <= v + "/"
    ensures NormalPath(u, p) == NormalPath(v, "")
  {
    Longer(u, v);
    var x := (v + "/")[|u| + 1..];
    assert v + "/" == u + "/" + x && x[|x| - 1] == '/';
    p := "/" + x;
    assert p[1..] == x;
    assert "/" + u + "/" + x == "/" + (v + "/");
    assert "/" + v + "/" == "/" + (v + "/");
  }

  lemma PrefixesNested(u: string, v: string, a: string)
    requires "/" + u + "/" <= a && "/" + v + "/" <= a
    ensures Nested(u, v)
  {
    var x, y := "/" + u + "/", "/" + v + "/";
    assert x[1..] == u + "/" && y[1..] == v + "/";
    if |x| <= |y| {
      assert x == a[..|x|] == y[..|x|];
      assert u + "/" == (v + "/")[..|u| + 1];
    } else {
      assert y == a[..|y|] == x[..|y|];
      assert v + "/" == (u + "/")[..|v| + 1];
    }
  }

  lemma NestedSlash(u: string, v: string)
    requires u != v && u + "/" <= v + "/"
    ensures '/' in v
  {
    Longer(u, v);
    assert (v + "/")[|u|] == (u + "/")[|u|] == '/';
    assert v[|u|] == '/';
  }

  /** Users without slashes in their names never share a file. */
  lemma FilesApart(u: string, v: string, a: string, b: string)
    requires u != v && '/' !in u && '/' !in v && "/" + u + "/" <= a && "/" + v + "/" <= b
    ensures a != b
  {
    PathsMeet(u, v);
    if a == b {
      PrefixesNested(u, v, a);
    }
  }
}
