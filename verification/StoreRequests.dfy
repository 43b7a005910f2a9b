/** Requests and responses of the replicated file store (PA3): what the client writes the server reads back. */
module StoreRequests {
  import opened Decimal

  type Bytes = seq<char>

  /** std::string::npos as a 64-bit index */
  const NPOS: nat := 0xFFFF_FFFF_FFFF_FFFF

  // ---------------------------------------------------------------------------
  // Parsing a request

  /** The first place of c in s at or after `start` */
  function Find(s: string, c: char, start: nat): (r: nat)
    requires |s| < NPOS
    ensures r == NPOS || (start <= r < |s| && s[r] == c)
    decreases if start < |s| then |s| - start else 0
  {
    if start >= |s| then NPOS else if s[start] == c then start else Find(s, c, start + 1)
  }

  function Line(data: Bytes): string {
    if data == [] || data[0] == '\n' then [] else [data[0]] + Line(data[1..])
  }

  /** substr; the source only uses it with start <= |s| */
  function Substr(s: string, start: nat, n: nat): string {
    if start > |s| then [] else if n > |s| - start then s[start..] else s[start..start + n]
  }

  predicate HasDots(s: string) {
    exists i :: 0 <= i < |s| - 1 && s[i] == '.' && s[i + 1] == '.'
  }

  /** The user's directory, without a doubled slash in front and with one at the end */
  function NormalPath(user: string, path: string): string {
    var p := if path != [] && path[|path| - 1] == '\n' then path[..|path| - 1] else path;
    var q := if p != [] && p[0] == '/' then p[1..] else p;
    var r := "/" + user + "/" + q;
    if r[|r| - 1] != '/' then r + "/" else r
  }

  datatype Request =
    | List(path: string)
    | Mkdir(path: string)
    | Get(path: string, filename: string)
    | Put(path: string, filename: string, piece: nat, data: Bytes)
    | Bad(error: string)

  const BAD_USER := "Invalid\tUsername/Password.\tPlease\ttry\tagain."

  /** parseRequest; `start` wraps to 0 after a token that ran to the end of the line. */
  function Parse(users: map<string, string>, message: Bytes): (r: Request)
    requires |message| < NPOS
    ensures r.Put? ==> r.piece < 4
  {
    var line := Line(message);
    LineLength(message);
    var end0 := Find(line, ' ', 0);
    if end0 == NPOS then Bad("EMPTY_REQUEST")
    else
      var kind := line[..end0];
      if kind !in ["GET", "LIST", "PUT", "MKDIR"] then Bad("UNSUPPORTED_METHOD")
      else
        var start1 := end0 + 1;
        var end1 := Find(line, ' ', start1);
        var delim := Find(line, ':', start1);
        if delim == NPOS || delim >= end1 || end1 <= start1 then Bad(BAD_USER)
        else
          var user := Substr(line, start1, delim - start1);
          var password := Substr(line, delim + 1, end1 - delim - 1);
          if user == [] || password == [] || user !in users || users[user] != password then Bad(BAD_USER)
          else ParsePath(message, line, kind, user, (end1 + 1) % (NPOS + 1))
  }

  lemma {:induction false} LineLength(message: Bytes)
    ensures |Line(message)| <= |message|
  {
    if message != [] && message[0] != '\n' {
      LineLength(message[1..]);
    }
  }

  function ParsePath(message: Bytes, line: string, kind: string, user: string, start2: nat): (r: Request)
    requires |line| <= |message| < NPOS
    ensures r.Put? ==> r.piece < 4
  {
    var end2 := Find(line, ' ', start2);
    if end2 <= start2 then Bad("BAD_PATH_TOKEN")
    else
      var path := NormalPath(user, Substr(line, start2, end2 - start2));
      if HasDots(path) then Bad("BAD_PATH_TOKEN")
      else if kind == "LIST" then List(path)
      else if kind == "MKDIR" then Mkdir(path)
      else ParseFile(message, line, kind, path, (end2 + 1) % (NPOS + 1))
  }

  function ParseFile(message: Bytes, line: string, kind: string, path: string, start3: nat): (r: Request)
    requires |line| <= |message| < NPOS
    ensures r.Put? ==> r.piece < 4
  {
    var end3 := Find(line, ' ', start3);
    if end3 <= start3 then Bad("BAD_FILENAME_TOKEN")
    else
      var filename := Substr(line, start3, end3 - start3);
      if HasDots(filename) then Bad("BAD_FILENAME_TOKEN")
      else if kind == "GET" then Get(path, filename)
      else
        var start4 := (end3 + 1) % (NPOS + 1);
        if start4 >= |line| then Bad("MISSING_PIECE_TOKEN")
        else if !('0' <= line[start4] <= '9') then Bad("Invalid pieceNumber")
        else if line[start4] > '3' then Bad("BAD_PIECE_TOKEN")
        else Put(path, filename, (line[start4] - '0') as nat, if |line| < |message| then message[|line| + 1..] else [])
  }

  // ---------------------------------------------------------------------------
  // What the client writes

  /** A token: nonempty, on one line, without blanks */
  predicate Token(s: string) {
    s != [] && ' ' !in s && '\n' !in s
  }

  datatype File = File(user: string, password: string, path: string, name: string)

  predicate Acceptable(users: map<string, string>, f: File) {
    && Token(f.user) && Token(f.password) && Token(f.path) && Token(f.name)
    && ':' !in f.user && f.user in users && users[f.user] == f.password
    && !HasDots(NormalPath(f.user, f.path)) && !HasDots(f.name)
  }

  function Credentials(f: File): string {
    f.user + [':'] + f.password
  }

  function GetMessage(f: File): Bytes {
    "GET" + " " + Credentials(f) + " " + f.path + " " + f.name
  }

  function PutMessage(f: File, piece: nat, data: Bytes): Bytes {
    "PUT" + " " + Credentials(f) + " " + f.path + " " + f.name + " " + Digits(piece) + "\n" + data
  }

  // ---------------------------------------------------------------------------
  // Reading it back

  lemma {:induction false} FindFrom(s: string, c: char, start: nat, at: nat)
    requires |s| < NPOS && start <= at < |s| && s[at] == c && forall i :: start <= i < at ==> s[i] != c
    ensures Find(s, c, start) == at
    decreases at - start
  {
    if start < at {
      FindFrom(s, c, start + 1, at);
    }
  }

  lemma {:induction false} FindNone(s: string, c: char, start: nat)
    requires |s| < NPOS && forall i :: start <= i < |s| ==> s[i] != c
    ensures Find(s, c, start) == NPOS
    decreases if start < |s| then |s| - start else 0
  {
    if start < |s| {
      FindNone(s, c, start + 1);
    }
  }

  lemma {:induction false} LineIs(head: string, data: Bytes)
    requires '\n' !in head
    ensures Line(head + "\n" + data) == head && Line(head) == head
  {
    if head != [] {
      assert (head + "\n" + data)[1..] == head[1..] + "\n" + data;
      LineIs(head[1..], data);
    }
  }

  lemma Assoc(x: string, y: string, z: string)
    ensures x + (y + z) == x + y + z
  {
  }

  /** What stands between `pre` and the next c */
  lemma PartAt(s: string, pre: string, tok: string, c: char, post: string)
    requires |s| < NPOS && s == pre + tok + [c] + post && c !in tok
    ensures Find(s, c, |pre|) == |pre| + |tok|
  {
    hide Find;
    var at := |pre| + |tok|;
    assert s[at] == c;
    forall i | |pre| <= i < at
      ensures s[i] != c
    {
      assert s[i] == tok[i - |pre|];
    }
    FindFrom(s, c, |pre|, at);
  }

  lemma SubstrAt(s: string, k: nat, pre: string, tok: string, post: string)
    requires s == pre + tok + post && k == |pre|
    ensures Substr(s, k, |tok|) == tok
  {
    assert s[|pre|..|pre| + |tok|] == tok;
    if post == [] {
      assert s[|pre|..] == tok;
    }
  }

  /** A token followed by a blank, standing after `pre` */
  lemma TokenAt(s: string, pre: string, tok: string, post: string)
    requires |s| < NPOS && s == pre + tok + " " + post && ' ' !in tok
    ensures Find(s, ' ', |pre|) == |pre| + |tok| && Substr(s, |pre|, |tok|) == tok
  {
    hide Find, Substr;
    PartAt(s, pre, tok, ' ', post);
    Assoc(pre + tok, " ", post);
    SubstrAt(s, |pre|, pre, tok, " " + post);
  }

  /** The last token of a line */
  lemma TokenLast(s: string, pre: string, tok: string)
    requires |s| < NPOS && s == pre + tok && ' ' !in tok
    ensures Find(s, ' ', |pre|) == NPOS && Substr(s, |pre|, NPOS - |pre|) == tok
  {
    FindNone(s, ' ', |pre|);
  }

  /** The user and the password are told apart by the first colon. */
  lemma ColonAt(s: string, pre: string, f: File, post: string)
    requires |s| < NPOS && s == pre + Credentials(f) + post && ':' !in f.user
    ensures Find(s, ':', |pre|) == |pre| + |f.user|
  {
    hide Find;
    var at := |pre| + |f.user|;
    assert s[at] == Credentials(f)[|f.user|] == ':';
    forall i | |pre| <= i < at
      ensures s[i] != ':'
    {
      assert s[i] == Credentials(f)[i - |pre|] == f.user[i - |pre|];
    }
    FindFrom(s, ':', |pre|, at);
  }

  /** A part of the token that stands after `pre` */
  lemma PartOfToken(s: string, pre: string, tok: string, post: string, from: nat, n: nat)
    requires s == pre + tok + post && from + n <= |tok|
    ensures Substr(s, |pre| + from, n) == tok[from..from + n]
  {
    var k := |pre| + from;
    assert Substr(s, k, n) == s[k..k + n];
    assert s[k..k + n] == tok[from..from + n];
  }

  /** The part of a line every request shares leads the parser to the path. */
  lemma ParseHead(users: map<string, string>, message: Bytes, f: File, kind: string, post: string)
    requires |message| < NPOS && Acceptable(users, f) && kind in ["GET", "PUT"]
    requires Line(message) == kind + " " + Credentials(f) + " " + post
    ensures |Line(message)| <= |message|
    ensures Parse(users, message) == ParsePath(message, Line(message), kind, f.user, |kind| + |Credentials(f)| + 2)
  {
    hide Find, Substr, ParsePath, HasDots, NormalPath;
    LineLength(message);
    var line := Line(message);
    TokenAt(line, "", kind, Credentials(f) + " " + post);
    assert line == "" + kind + " " + (Credentials(f) + " " + post);
    assert line[..|kind|] == kind;
    var pre := kind + " ";
    assert ' ' !in Credentials(f);
    assert line == pre + Credentials(f) + " " + post;
    TokenAt(line, pre, Credentials(f), post);
    assert line == pre + Credentials(f) + (" " + post);
    ColonAt(line, pre, f, " " + post);
    PartOfToken(line, pre, Credentials(f), " " + post, 0, |f.user|);
    PartOfToken(line, pre, Credentials(f), " " + post, |f.user| + 1, |f.password|);
    assert Credentials(f)[0..|f.user|] == f.user;
    assert Credentials(f)[|f.user| + 1..|f.user| + 1 + |f.password|] == f.password;
  }

  lemma PathHead(message: Bytes, line: string, f: File, kind: string, pre: string, post: string,
                 users: map<string, string>)
    requires |line| <= |message| < NPOS && Acceptable(users, f) && kind in ["GET", "PUT"]
    requires line == pre + f.path + " " + post
    ensures ParsePath(message, line, kind, f.user, |pre|) ==
      ParseFile(message, line, kind, NormalPath(f.user, f.path), |pre| + |f.path| + 1)
  {
    hide Find, Substr, ParseFile, HasDots, NormalPath;
    TokenAt(line, pre, f.path, post);
  }

  lemma ParsePut(users: map<string, string>, f: File, piece: nat, data: Bytes)
    requires Acceptable(users, f) && piece < 4 && |PutMessage(f, piece, data)| < NPOS
    ensures Parse(users, PutMessage(f, piece, data)) == Put(NormalPath(f.user, f.path), f.name, piece, data)
  {
    hide Parse, ParsePath, ParseFile, Find, Substr, HasDots, NormalPath, Line;
    var m := PutMessage(f, piece, data);
    var pre := "PUT" + " " + Credentials(f) + " ";
    var last := f.name + " " + Digits(piece);
    var line := pre + f.path + " " + last;
    assert Digits(piece) == [Digit(piece)] && m == line + "\n" + data;
    LineIs(line, data);
    assert line == "PUT" + " " + Credentials(f) + " " + (f.path + " " + last);
    ParseHead(users, m, f, "PUT", f.path + " " + last);
    PathHead(m, line, f, "PUT", pre, last, users);
    var pre2 := pre + f.path + " ";
    assert line == pre2 + f.name + " " + Digits(piece);
    assert |pre2| == |pre| + |f.path| + 1;
    FileEnd(m, line, f, pre2, piece, data);
  }

  lemma FileEnd(m: Bytes, line: string, f: File, pre: string, piece: nat, data: Bytes)
    requires |line| <= |m| < NPOS && Token(f.name) && !HasDots(f.name) && piece < 4
    requires line == pre + f.name + " " + [Digit(piece)] && m == line + "\n" + data
    ensures ParseFile(m, line, "PUT", NormalPath(f.user, f.path), |pre|) ==
      Put(NormalPath(f.user, f.path), f.name, piece, data)
  {
    hide Find, Substr, HasDots, NormalPath;
    TokenAt(line, pre, f.name, [Digit(piece)]);
    assert line[|pre| + |f.name| + 1] == Digit(piece);
    assert m[|line| + 1..] == data;
  }

  lemma ParseGet(users: map<string, string>, f: File)
    requires Acceptable(users, f) && |GetMessage(f)| < NPOS
    ensures Parse(users, GetMessage(f)) == Get(NormalPath(f.user, f.path), f.name)
  {
    hide Parse, ParsePath, Find, Substr, HasDots, NormalPath, Line;
    var line := GetMessage(f);
    var pre := "GET" + " " + Credentials(f) + " ";
    LineIs(line, []);
    assert line == "GET" + " " + Credentials(f) + " " + (f.path + " " + f.name);
    ParseHead(users, line, f, "GET", f.path + " " + f.name);
    assert line == pre + f.path + " " + f.name;
    PathHead(line, line, f, "GET", pre, f.name, users);
    var pre2 := pre + f.path + " ";
    assert line == pre2 + f.name;
    TokenLast(line, pre2, f.name);
  }
}
