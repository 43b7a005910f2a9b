/** The four-server file store (PA3): PUT splits a file into four pieces and places each on two servers; GET
    collects them from two opposite servers, falling back to the other two. */
module ReplicatedStore {
  import opened Wrappers
  import opened Decimal
  import opened StoreRequests
  import opened StoreAccess

  // ---------------------------------------------------------------------------
  // Splitting

  function PieceLength(n: nat): nat {
    (n + 3) / 4
  }

  function Least(x: nat, y: nat): nat {
    if x < y then x else y
  }

  /** Where piece i begins, and piece i - 1 ends */
  function Cut(n: nat, i: nat): (c: nat)
    ensures c <= n
  {
    Least(i * PieceLength(n), n)
  }

  function Piece(file: Bytes, i: nat): Bytes {
    CutOrder(|file|, i);
    file[Cut(|file|, i)..Cut(|file|, i + 1)]
  }

  lemma CutOrder(n: nat, i: nat)
    ensures Cut(n, i) <= Cut(n, i + 1)
  {
    assert (i + 1) * PieceLength(n) == i * PieceLength(n) + PieceLength(n);
  }

  lemma CutEnds(n: nat)
    ensures Cut(n, 0) == 0 && Cut(n, 4) == n
    ensures Cut(n, 1) == Least(PieceLength(n), n) && Cut(n, 2) == Least(2 * PieceLength(n), n)
    ensures Cut(n, 3) == Least(3 * PieceLength(n), n)
  {
  }

  /** For every length the four pieces make up the file. */
  lemma PiecesMakeFile(file: Bytes)
    ensures Piece(file, 0) + Piece(file, 1) + Piece(file, 2) + Piece(file, 3) == file
  {
    var n := |file|;
    CutEnds(n);
    CutOrder(n, 0);
    CutOrder(n, 1);
    CutOrder(n, 2);
    CutOrder(n, 3);
  }

  /** None of the four pieces is empty exactly when the first three do not use the file up. */
  lemma PiecesNonempty(file: Bytes)
    ensures (forall i :: 0 <= i < 4 ==> Piece(file, i) != []) <==> 3 * PieceLength(|file|) < |file|
    ensures Piece(file, 3) == [] <==> 3 * PieceLength(|file|) >= |file|
  {
    var n := |file|;
    CutEnds(n);
    assert |Piece(file, 0)| == Cut(n, 1) - Cut(n, 0);
    assert |Piece(file, 1)| == Cut(n, 2) - Cut(n, 1);
    assert |Piece(file, 2)| == Cut(n, 3) - Cut(n, 2);
    assert |Piece(file, 3)| == Cut(n, 4) - Cut(n, 3);
  }

  /** The files with an empty last piece */
  lemma ShortFiles(n: nat)
    ensures 3 * PieceLength(n) >= n <==> n in {0, 1, 2, 3, 5, 6, 9}
  {
  }

  // ---------------------------------------------------------------------------
  // Messages

  const INT_MAX: nat := 0x7FFF_FFFF

  /** A message is preceded by its length, read with std::stoi: if that does not fit an int, nothing is read. */
  function Received(message: Bytes): (r: Bytes)
    ensures |r| <= INT_MAX
  {
    if |message| <= INT_MAX then message else []
  }

  // ---------------------------------------------------------------------------
  // A server

  type Files = map<string, Bytes>

  function PieceName(path: string, name: string, i: nat): string
    requires i < 10
  {
    path + "." + name + "." + [Digit(i)]
  }

  lemma PieceNamesDiffer(path: string, name: string, i: nat, j: nat)
    requires i < 10 && j < 10 && i != j
    ensures PieceName(path, name, i) != PieceName(path, name, j)
  {
    var a, b := PieceName(path, name, i), PieceName(path, name, j);
    assert a[|a| - 1] == Digit(i) && b[|b| - 1] == Digit(j);
  }

  /** A missing file and an empty one load as the same empty vector. */
  function Load(files: Files, name: string): Bytes {
    if name in files then files[name] else []
  }

  /** The nonempty pieces of a file a server holds, from number `from` on */
  function Held(files: Files, path: string, name: string, from: nat): seq<nat>
    requires from <= 4
    decreases 4 - from
  {
    if from == 4 then []
    else if Load(files, PieceName(path, name, from)) != [] then [from] + Held(files, path, name, from + 1)
    else Held(files, path, name, from + 1)
  }

  lemma {:induction false} HeldRange(files: Files, path: string, name: string, from: nat, k: nat)
    requires from <= 4 && k < |Held(files, path, name, from)|
    ensures from <= Held(files, path, name, from)[k] < 4
    decreases 4 - from
  {
    if from < 4 {
      var rest := Held(files, path, name, from + 1);
      if Load(files, PieceName(path, name, from)) == [] {
        HeldRange(files, path, name, from + 1, k);
      } else if k > 0 {
        HeldRange(files, path, name, from + 1, k - 1);
      }
    }
  }

  function Encode(i: nat, j: nat, d1: Bytes, d2: Bytes): Bytes {
    Digits(i) + [' '] + Digits(j) + [' '] + Digits(|d1|) + [' '] + d1 + d2
  }

  /** The answer to a GET: the first two nonempty pieces, or an error if there are fewer */
  function GetResponse(files: Files, path: string, name: string): Bytes {
    var held := Held(files, path, name, 0);
    if |held| < 2 then "ERROR"
    else
      HeldRange(files, path, name, 0, 0);
      HeldRange(files, path, name, 0, 1);
      Encode(held[0], held[1], Load(files, PieceName(path, name, held[0])), Load(files, PieceName(path, name, held[1])))
  }

  lemma Refusal(users: map<string, string>, m: Bytes)
    requires |m| < NPOS
    ensures forall kind :: Known(kind) && FirstWord(Line(m), kind) ==>
      (Parse(users, m) == Bad(BAD_USER) <==> !Authorised(users, Line(m)))
  {
    forall kind | Known(kind) && FirstWord(Line(m), kind)
      ensures Parse(users, m) == Bad(BAD_USER) <==> !Authorised(users, Line(m))
    {
      RefusedExactly(users, m, kind);
    }
  }

  lemma OwnDirectory(r: Request, user: string)
    requires !r.Bad? && Confined(r, user)
    ensures r.Put? && r.piece < 10 ==> "/" + user + "/" <= PieceName(r.path, r.filename, r.piece)
  {
  }

  class Server {
    const users: map<string, string>
    var files: Files

    constructor (users: map<string, string>)
      ensures this.users == users && files == map[]
    {
      this.users := users;
      files := map[];
    }

    /** handleGetResponse: the loop over the four piece numbers stops at the second piece found. */
    method HandleGet(path: string, name: string) returns (response: Bytes)
      ensures response == GetResponse(files, path, name)
    {
      hide PieceName, Digits;
      var d1, d2, header := [], [], [];
      ghost var first := 0;
      var i := 0;
      ghost var held := Held(files, path, name, 0);
      while i < 4
        invariant 0 <= i <= 4 && d2 == []
        invariant d1 == [] ==> header == [] && held == Held(files, path, name, i)
        invariant d1 != [] ==>
          first < 4 && header == Digits(first) + [' '] && held == [first] + Held(files, path, name, i)
        invariant d1 != [] ==> d1 == Load(files, PieceName(path, name, first))
      {
        var temp := Load(files, PieceName(path, name, i));
        if temp != [] {
          header := header + Digits(i) + [' '];
          if d1 == [] {
            d1, first := temp, i;
          } else {
            d2 := temp;
            break;
          }
        }
        i := i + 1;
      }
      if d2 != [] {
        header := header + Digits(|d1|) + [' '];
        response := header + d1 + d2;
      } else {
        response := "ERROR";
      }
    }

    /** One request answered */
    method Serve(message: Bytes) returns (response: Bytes)
      modifies this
      ensures var r := Parse(users, Received(message));
        && files == (if r.Put? then old(files)[PieceName(r.path, r.filename, r.piece) := r.data] else old(files))
        && (r.Get? ==> response == GetResponse(old(files), r.path, r.filename))
        && (r.Put? ==> response == "SUCCESS")
        && (r.Bad? ==> response == "ERROR " + r.error)
      // a wrong password, or none, is refused
      ensures var line := Line(Received(message));
        (exists kind :: Known(kind) && FirstWord(line, kind)) &&
          !Authorised(users, line) ==>
          files == old(files) && response == "ERROR " + BAD_USER
      // a file changes only in the directory of the user who asked for it
      ensures forall name :: Load(files, name) != Load(old(files), name) ==>
        exists user :: LoggedIn(users, Line(Received(message)), user) && "/" + user + "/" <= name
    {
      hide Parse, GetResponse, PieceName, LoggedIn, FirstWord, Line, Confined, NoDots;
      var r := Parse(users, Received(message));
      Refusal(users, Received(message));
      if !r.Bad? {
        ghost var user := Granted(users, Received(message));
        OwnDirectory(r, user);
      }
      match r
      case Get(path, filename) => response := HandleGet(path, filename);
      case Put(path, filename, piece, data) =>
        files := files[PieceName(path, filename, piece) := data];
        response := "SUCCESS";
      case Bad(error) => response := "ERROR " + error;
      case List(path) => response := [];
      case Mkdir(path) => response := "SUCCESS";
    }
  }

  // ---------------------------------------------------------------------------
  // Decoding an answer

  type Pieces = map<nat, Bytes>

  /** Digits up to the next blank */
  method ReadNumber(response: Bytes, from: nat, ghost v: nat) returns (n: nat, next: nat)
    requires from + |Digits(v)| < |response| && response[from..from + |Digits(v)|] == Digits(v)
    requires response[from + |Digits(v)|] == ' '
    ensures n == v && next == from + |Digits(v)| + 1
  {
    DigitsNumber(v);
    forall k | from <= k < from + |Digits(v)|
      ensures response[k] != ' '
    {
      assert response[k] == response[from..from + |Digits(v)|][k - from];
    }
    var buffer := [];
    next := from;
    while response[next] != ' '
      invariant from <= next <= from + |Digits(v)| && buffer == response[from..next]
      decreases |response| - next
    {
      buffer := buffer + [response[next]];
      next := next + 1;
    }
    n := Number(buffer);
    next := next + 1;
  }

  /** sendGetRequest, second half: both pieces are entered in the piece map. */
  method Decode(response: Bytes, pieces: Pieces, ghost i: nat, ghost j: nat, ghost d1: Bytes, ghost d2: Bytes)
    returns (r: Pieces)
    requires response == Encode(i, j, d1, d2) && |d1| <= INT_MAX
    ensures r == pieces[i := d1][j := d2]
  {
    hide Digits;
    ghost var a, b, c := Digits(i), Digits(j), Digits(|d1|);
    Layout(response, a, b, c, d1, d2);
    var first, p1 := ReadNumber(response, 0, i);
    var second, p2 := ReadNumber(response, p1, j);
    var size, p3 := ReadNumber(response, p2, |d1|);
    var split := size + p3;
    r := pieces[first := response[p3..split]][second := response[split..]];
  }

  lemma Layout(r: Bytes, a: Bytes, b: Bytes, c: Bytes, d1: Bytes, d2: Bytes)
    requires r == a + [' '] + b + [' '] + c + [' '] + d1 + d2
    ensures var p1 := |a| + 1; var p2 := p1 + |b| + 1; var p3 := p2 + |c| + 1;
      && |r| == p3 + |d1| + |d2|
      && r[0..|a|] == a && r[|a|] == ' ' && r[p1..p1 + |b|] == b && r[p1 + |b|] == ' '
      && r[p2..p2 + |c|] == c && r[p2 + |c|] == ' ' && r[p3..p3 + |d1|] == d1 && r[p3 + |d1|..] == d2
  {
  }

  /** The piece map after a server's answer */
  function Collect(pieces: Pieces, files: Files, path: string, name: string): Pieces {
    var held := Held(files, path, name, 0);
    if |held| < 2 then pieces
    else
      HeldRange(files, path, name, 0, 0);
      HeldRange(files, path, name, 0, 1);
      var d1, d2 := Load(files, PieceName(path, name, held[0])), Load(files, PieceName(path, name, held[1]));
      pieces[held[0] := d1][held[1] := d2]
  }

  lemma NotAnError(i: nat, j: nat, d1: Bytes, d2: Bytes)
    ensures |Encode(i, j, d1, d2)| >= 5 && Encode(i, j, d1, d2)[..5] != "ERROR"
  {
    DigitsNumber(i);
    var e := Encode(i, j, d1, d2);
    assert e[0] == Digits(i)[0];
    assert e[..5][0] == e[0];
  }

  /** Whether a server has two pieces to send, in messages whose lengths fit */
  predicate CanAnswer(files: Files, f: File) {
    var path := NormalPath(f.user, f.path);
    |GetMessage(f)| <= INT_MAX && |Held(files, path, f.name, 0)| >= 2 && |GetResponse(files, path, f.name)| <= INT_MAX
  }

  /** sendGetRequest: ask one server; a server that is down or answers with an error adds nothing. */
  method SendGet(server: Server, up: bool, f: File, pieces: Pieces) returns (ok: bool, r: Pieces)
    requires Acceptable(server.users, f)
    modifies server
    ensures server.files == old(server.files)
    ensures ok <==> up && CanAnswer(server.files, f)
    ensures r == if ok then Collect(pieces, server.files, NormalPath(f.user, f.path), f.name) else pieces
  {
    hide Parse, NormalPath, Encode, Held, PieceName, GetMessage, Acceptable;
    if !up {
      return false, pieces;
    }
    if |GetMessage(f)| <= INT_MAX {
      ParseGet(server.users, f);
    } else {
      ParseNothing(server.users);
    }
    var sent := server.Serve(GetMessage(f));
    var response := Received(sent);
    ghost var files, path := server.files, NormalPath(f.user, f.path);
    ghost var held := Held(files, path, f.name, 0);
    if |GetMessage(f)| <= INT_MAX && |held| >= 2 {
      HeldRange(files, path, f.name, 0, 0);
      HeldRange(files, path, f.name, 0, 1);
      var d1, d2 := Load(files, PieceName(path, f.name, held[0])), Load(files, PieceName(path, f.name, held[1]));
      NotAnError(held[0], held[1], d1, d2);
    }
    if |response| < 5 || response[..5] == "ERROR" {
      return false, pieces;
    }
    ErrorPrefix(sent);
    ghost var d1, d2 := Load(files, PieceName(path, f.name, held[0])), Load(files, PieceName(path, f.name, held[1]));
    EncodeLength(held[0], held[1], d1, d2);
    r := Decode(response, pieces, held[0], held[1], d1, d2);
    ok := true;
  }

  lemma ParseNothing(users: map<string, string>)
    ensures Parse(users, []) == Bad("EMPTY_REQUEST")
  {
  }

  lemma ErrorPrefix(sent: Bytes)
    ensures forall e: string :: sent == "ERROR " + e ==> |sent| >= 5 && sent[..5] == "ERROR"
  {
  }

  lemma EncodeLength(i: nat, j: nat, d1: Bytes, d2: Bytes)
    ensures |Encode(i, j, d1, d2)| >= |d1| + |d2|
  {
  }

  // ---------------------------------------------------------------------------
  // Storing

  /** Piece i goes to server i + bin and to the next one round. */
  predicate Hosts(s: nat, bin: nat, i: nat) {
    s == (i + bin) % 4 || s == (i + bin + 1) % 4
  }

  /** Seen from a server: with the pieces turned by its bin, it has the one of its own number and the one before. */
  lemma ServerHosts(s: nat, bin: nat, i: nat)
    requires s < 4 && bin < 4 && i < 4
    ensures Hosts(s, bin, i) <==> i == (s + 4 - bin) % 4 || i == (s + 3 - bin) % 4
  {
  }

  /** Server s holds exactly its pieces of the file. */
  ghost predicate Stored(files: Files, f: File, file: Bytes, bin: nat, s: nat) {
    forall i :: 0 <= i < 4 ==>
      Load(files, PieceName(NormalPath(f.user, f.path), f.name, i)) == if Hosts(s, bin, i) then Piece(file, i) else []
  }

  /** as far as pieces below k are concerned */
  ghost predicate StoredUpTo(files: Files, f: File, file: Bytes, bin: nat, s: nat, k: nat) {
    forall i :: 0 <= i < 4 ==>
      Load(files, PieceName(NormalPath(f.user, f.path), f.name, i)) ==
        if Hosts(s, bin, i) && i < k then Piece(file, i) else []
  }

  /** Other files are left alone. */
  ghost predicate OthersKept(was: Files, files: Files, f: File) {
    forall name :: (forall i :: 0 <= i < 4 ==> name != PieceName(NormalPath(f.user, f.path), f.name, i)) ==>
      (name in files <==> name in was) && (name in was ==> files[name] == was[name])
  }

  predicate Four(servers: seq<Server>) {
    |servers| == 4 && forall s, t :: 0 <= s < t < 4 ==> servers[s] != servers[t]
  }

  method SendPiece(server: Server, f: File, i: nat, data: Bytes)
    requires Acceptable(server.users, f) && i < 4 && |PutMessage(f, i, data)| <= INT_MAX
    modifies server
    ensures server.files == old(server.files)[PieceName(NormalPath(f.user, f.path), f.name, i) := data]
  {
    hide Parse, PieceName, NormalPath, PutMessage, Acceptable;
    ParsePut(server.users, f, i, data);
    var response := server.Serve(PutMessage(f, i, data));
  }

  lemma PlaceOne(was: Files, files: Files, f: File, file: Bytes, bin: nat, s: nat, k: nat)
    requires k < 4 && Hosts(s, bin, k) && StoredUpTo(files, f, file, bin, s, k) && OthersKept(was, files, f)
    ensures var z := files[PieceName(NormalPath(f.user, f.path), f.name, k) := Piece(file, k)];
      StoredUpTo(z, f, file, bin, s, k + 1) && OthersKept(was, z, f)
  {
    hide PieceName, NormalPath, Piece;
    var path := NormalPath(f.user, f.path);
    forall i | 0 <= i < 4 && i != k
      ensures PieceName(path, f.name, i) != PieceName(path, f.name, k)
    {
      PieceNamesDiffer(path, f.name, i, k);
    }
  }

  lemma PlaceNone(files: Files, f: File, file: Bytes, bin: nat, s: nat, k: nat)
    requires k < 4 && !Hosts(s, bin, k) && StoredUpTo(files, f, file, bin, s, k)
    ensures StoredUpTo(files, f, file, bin, s, k + 1)
  {
  }

  ghost function FilesOf(servers: seq<Server>): (r: seq<Files>)
    requires |servers| == 4
    reads servers
    ensures |r| == 4
  {
    [servers[0].files, servers[1].files, servers[2].files, servers[3].files]
  }

  /** Pieces below k are in place everywhere. */
  ghost predicate Progress(servers: seq<Server>, was: seq<Files>, f: File, file: Bytes, bin: nat, k: nat)
    requires |servers| == |was| == 4
    reads servers
  {
    forall s :: 0 <= s < 4 ==>
      && Acceptable(servers[s].users, f)
      && StoredUpTo(servers[s].files, f, file, bin, s, k) && OthersKept(was[s], servers[s].files, f)
  }

  /** One round of the loop: the piece goes to its two servers. */
  method SendBoth(servers: seq<Server>, ghost was: seq<Files>, f: File, file: Bytes, bin: nat, i: nat, data: Bytes)
    requires Four(servers) && |was| == 4 && bin < 4 && i < 4 && Progress(servers, was, f, file, bin, i)
    requires data == Piece(file, i) && |PutMessage(f, i, data)| <= INT_MAX
    modifies servers
    ensures Progress(servers, was, f, file, bin, i + 1)
  {
    hide Acceptable, StoredUpTo, OthersKept, PutMessage, Piece, PieceName;
    var p, q := (i + bin) % 4, (i + bin + 1) % 4;
    assert p != q;
    SendPiece(servers[p], f, i, data);
    SendPiece(servers[q], f, i, data);
    forall s | 0 <= s < 4
      ensures StoredUpTo(servers[s].files, f, file, bin, s, i + 1) && OthersKept(was[s], servers[s].files, f)
    {
      if Hosts(s, bin, i) {
        PlaceOne(was[s], old(servers[s].files), f, file, bin, s, i);
      } else {
        assert servers[s].files == old(servers[s].files);
        PlaceNone(servers[s].files, f, file, bin, s, i);
      }
    }
  }

  lemma NextCut(n: nat, i: nat, length: nat)
    requires i < 4 && Cut(n, i) + length == Cut(n, i + 1) && (length == PieceLength(n) || Cut(n, i + 1) == n)
    ensures var next := if Cut(n, i + 1) + length >= n then n - Cut(n, i + 1) else length;
      Cut(n, i + 1) + next == Cut(n, i + 2) && (next == PieceLength(n) || Cut(n, i + 2) == n)
  {
    var p := PieceLength(n);
    assert (i + 1) * p == i * p + p && (i + 2) * p == i * p + 2 * p;
  }

  lemma ShorterMessage(f: File, i: nat, data: Bytes, file: Bytes)
    requires |data| <= |file|
    ensures |PutMessage(f, i, data)| <= |PutMessage(f, i, file)|
  {
  }

  /** handlePut with all servers up: the piece pointer and the remaining length advance together. */
  method PutFile(servers: seq<Server>, f: File, file: Bytes, bin: nat)
    requires Four(servers) && bin < 4
    requires forall s :: 0 <= s < 4 ==>
      Acceptable(servers[s].users, f) && StoredUpTo(servers[s].files, f, file, bin, s, 0)
    requires forall i :: 0 <= i < 4 ==> |PutMessage(f, i, file)| <= INT_MAX
    modifies servers
    ensures forall s :: 0 <= s < 4 ==> Acceptable(servers[s].users, f) && Stored(servers[s].files, f, file, bin, s)
    ensures forall s :: 0 <= s < 4 ==> OthersKept(old(servers[s].files), servers[s].files, f)
  {
    hide Acceptable, PutMessage, Piece, PieceName, NormalPath, Cut, PieceLength;
    var sent, length := 0, PieceLength(|file|);
    FirstCut(|file|);
    ghost var was := FilesOf(servers);
    for i := 0 to 4
      invariant sent == Cut(|file|, i) && sent + length == Cut(|file|, i + 1)
      invariant length == PieceLength(|file|) || sent + length == |file|
      invariant Progress(servers, was, f, file, bin, i)
    {
      var data := file[sent..sent + length];
      PieceIs(file, i);
      ShorterMessage(f, i, data, file);
      NextCut(|file|, i, length);
      SendBoth(servers, was, f, file, bin, i, data);
      sent := sent + length;
      if sent + length >= |file| {
        length := |file| - sent;
      }
    }
  }

  lemma FirstCut(n: nat)
    ensures Cut(n, 0) == 0 && PieceLength(n) == Cut(n, 1)
  {
    CutEnds(n);
  }

  lemma PieceIs(file: Bytes, i: nat)
    ensures Cut(|file|, i) <= Cut(|file|, i + 1) && Piece(file, i) == file[Cut(|file|, i)..Cut(|file|, i + 1)]
  {
    CutOrder(|file|, i);
  }

  // ---------------------------------------------------------------------------
  // Fetching

  /** The file put together from the piece map; a piece that is not there counts as empty. */
  function Joined(pieces: Pieces): Bytes {
    var at := (i: nat) => if i in pieces then pieces[i] else [];
    at(0) + at(1) + at(2) + at(3)
  }

  /** Whether server s is up and has two pieces to send */
  predicate Answers(files: seq<Files>, up: seq<bool>, f: File, s: nat)
    requires |files| == |up| == 4 && s < 4
  {
    up[s] && CanAnswer(files[s], f)
  }

  function Take(pieces: Pieces, files: seq<Files>, f: File, s: nat): Pieces
    requires |files| == 4 && s < 4
  {
    Collect(pieces, files[s], NormalPath(f.user, f.path), f.name)
  }

  function Fetched(files: seq<Files>, up: seq<bool>, f: File): Option<Bytes>
    requires |files| == |up| == 4
  {
    if Answers(files, up, f, 0) && Answers(files, up, f, 2) then
      Some(Joined(Take(Take(map[], files, f, 0), files, f, 2)))
    else if Answers(files, up, f, 1) && Answers(files, up, f, 3) then
      var pieces := if Answers(files, up, f, 0) then Take(map[], files, f, 0) else map[];
      Some(Joined(Take(Take(pieces, files, f, 1), files, f, 3)))
    else None
  }

  /** handleGet: servers 0 and 2, or else 1 and 3 */
  method GetFile(servers: seq<Server>, up: seq<bool>, f: File) returns (r: Option<Bytes>)
    requires Four(servers) && |up| == 4
    requires forall s :: 0 <= s < 4 ==> Acceptable(servers[s].users, f)
    modifies servers
    ensures forall s :: 0 <= s < 4 ==> servers[s].files == old(servers[s].files)
    ensures r == Fetched(FilesOf(servers), up, f)
  {
    hide NormalPath, Acceptable, CanAnswer, Collect, Joined;
    var pieces: Pieces := map[];
    var ok;
    ok, pieces := SendGet(servers[0], up[0], f, pieces);
    if !ok {
      ok, pieces := SendGet(servers[1], up[1], f, pieces);
      if !ok {
        return None;
      }
      ok, pieces := SendGet(servers[3], up[3], f, pieces);
      if !ok {
        return None;
      }
    } else {
      ok, pieces := SendGet(servers[2], up[2], f, pieces);
      if !ok {
        ok, pieces := SendGet(servers[1], up[1], f, pieces);
        if !ok {
          return None;
        }
        ok, pieces := SendGet(servers[3], up[3], f, pieces);
        if !ok {
          return None;
        }
      }
    }
    r := Some(Joined(pieces));
  }

  // ---------------------------------------------------------------------------
  // What a fetch returns

  function Part(present: bool, i: nat): seq<nat> {
    if present then [i] else []
  }

  lemma HeldIs(files: Files, path: string, name: string)
    ensures Held(files, path, name, 0) ==
      Part(Load(files, PieceName(path, name, 0)) != [], 0) + Part(Load(files, PieceName(path, name, 1)) != [], 1) +
      Part(Load(files, PieceName(path, name, 2)) != [], 2) + Part(Load(files, PieceName(path, name, 3)) != [], 3)
  {
    hide PieceName, Load, Held, Part;
    HeldStep(files, path, name, 3);
    HeldStep(files, path, name, 2);
    HeldStep(files, path, name, 1);
    HeldStep(files, path, name, 0);
  }

  lemma HeldStep(files: Files, path: string, name: string, from: nat)
    requires from < 4
    ensures Held(files, path, name, from) ==
      Part(Load(files, PieceName(path, name, from)) != [], from) + Held(files, path, name, from + 1)
    ensures Held(files, path, name, 4) == []
  {
  }

  /** A server has two pieces to send exactly when neither of its pieces is empty, and then sends both. */
  lemma StoredAnswers(files: Files, f: File, file: Bytes, bin: nat, s: nat)
    requires Stored(files, f, file, bin, s) && bin < 4 && s < 4
    ensures var held := Held(files, NormalPath(f.user, f.path), f.name, 0);
      && (|held| >= 2 <==> forall i :: 0 <= i < 4 && Hosts(s, bin, i) ==> Piece(file, i) != [])
      && (|held| >= 2 ==> |held| == 2 && forall i: nat :: i in held <==> i < 4 && Hosts(s, bin, i))
  {
    hide Piece, PieceName, NormalPath, Held;
    HeldIs(files, NormalPath(f.user, f.path), f.name);
  }

  lemma TakeStored(pieces: Pieces, files: seq<Files>, f: File, file: Bytes, bin: nat, s: nat)
    requires |files| == 4 && bin < 4 && s < 4 && Stored(files[s], f, file, bin, s)
    requires |Held(files[s], NormalPath(f.user, f.path), f.name, 0)| >= 2
    ensures var r := Take(pieces, files, f, s);
      forall i: nat :: i < 4 ==>
        if Hosts(s, bin, i) then i in r && r[i] == Piece(file, i)
        else (i in r <==> i in pieces) && (i in pieces ==> r[i] == pieces[i])
  {
    hide Piece, PieceName, NormalPath, Held;
    StoredAnswers(files[s], f, file, bin, s);
    var path := NormalPath(f.user, f.path);
    var held := Held(files[s], path, f.name, 0);
    HeldRange(files[s], path, f.name, 0, 0);
    HeldRange(files[s], path, f.name, 0, 1);
  }

  predicate AdjacentDown(up: seq<bool>)
    requires |up| == 4
  {
    exists s :: 0 <= s < 4 && PairDown(up, s)
  }

  /** Server s and the next one round */
  predicate PairDown(up: seq<bool>, s: nat)
    requires |up| == 4 && s < 4
  {
    !up[s] && !up[(s + 1) % 4]
  }

  ghost predicate AllStored(files: seq<Files>, f: File, file: Bytes, bin: nat)
    requires |files| == 4
  {
    forall s :: 0 <= s < 4 ==> Stored(files[s], f, file, bin, s)
  }

  lemma FetchWhole(files: seq<Files>, up: seq<bool>, f: File, file: Bytes, bin: nat)
    requires |files| == |up| == 4 && bin < 4 && AllStored(files, f, file, bin) && 3 * PieceLength(|file|) < |file|
    requires |PutMessage(f, 0, file)| <= INT_MAX
    ensures Fetched(files, up, f) == if AdjacentDown(up) then None else Some(file)
  {
    hide Stored, Held, PieceLength, Take, Joined, AdjacentDown;
    AnswersIfUp(files, up, f, file, bin, 0);
    AnswersIfUp(files, up, f, file, bin, 1);
    AnswersIfUp(files, up, f, file, bin, 2);
    AnswersIfUp(files, up, f, file, bin, 3);
    if up[0] && up[2] {
      JoinOpposite(map[], files, f, file, bin, 0, 2);
      OppositeUp(up, 0);
    } else if up[1] && up[3] {
      JoinOpposite(if up[0] then Take(map[], files, f, 0) else map[], files, f, file, bin, 1, 3);
      OppositeUp(up, 1);
    } else {
      AdjacentWitness(up);
    }
  }

  /** With no piece empty a server answers whenever it is up. */
  lemma AnswersIfUp(files: seq<Files>, up: seq<bool>, f: File, file: Bytes, bin: nat, s: nat)
    requires |files| == |up| == 4 && bin < 4 && s < 4
    requires Stored(files[s], f, file, bin, s) && 3 * PieceLength(|file|) < |file|
    requires |PutMessage(f, 0, file)| <= INT_MAX
    ensures Answers(files, up, f, s) <==> up[s]
    ensures |Held(files[s], NormalPath(f.user, f.path), f.name, 0)| >= 2
  {
    hide Stored, Held, PieceLength, Piece, NormalPath, GetResponse, GetMessage, PutMessage;
    PiecesNonempty(file);
    StoredAnswers(files[s], f, file, bin, s);
    GetShorter(f, file);
    ResponseFits(files[s], f, file, bin, s);
  }

  /** Two pieces and their header are shorter than the file was with its. */
  lemma ResponseFits(files: Files, f: File, file: Bytes, bin: nat, s: nat)
    requires Stored(files, f, file, bin, s) && |PutMessage(f, 0, file)| <= INT_MAX
    ensures |GetResponse(files, NormalPath(f.user, f.path), f.name)| <= INT_MAX
  {
    var path := NormalPath(f.user, f.path);
    var held := Held(files, path, f.name, 0);
    if |held| >= 2 {
      hide Stored, Held, Piece, NormalPath, PieceName;
      HeldRange(files, path, f.name, 0, 0);
      HeldRange(files, path, f.name, 0, 1);
      PieceBound(files, f, file, bin, s, held[0]);
      PieceBound(files, f, file, bin, s, held[1]);
      var d1, d2 := Load(files, PieceName(path, f.name, held[0])), Load(files, PieceName(path, f.name, held[1]));
      HeaderBound(held[0], held[1], d1, d2);
    }
  }

  lemma PieceBound(files: Files, f: File, file: Bytes, bin: nat, s: nat, i: nat)
    requires Stored(files, f, file, bin, s) && i < 4
    ensures |Load(files, PieceName(NormalPath(f.user, f.path), f.name, i))| <= (|file| + 3) / 4
  {
    hide PieceName, NormalPath, Load;
    PieceIs(file, i);
    var p := PieceLength(|file|);
    assert (i + 1) * p == i * p + p;
  }

  lemma HeaderBound(i: nat, j: nat, d1: Bytes, d2: Bytes)
    requires i < 4 && j < 4 && |d1| <= INT_MAX
    ensures |Encode(i, j, d1, d2)| <= 15 + |d1| + |d2|
  {
    assert Pow10(1) == 10;
    assert Pow10(5) == 100000;
    assert Pow10(10) == 10000000000;
    hide Pow10, Digits;
    DigitsLength(i, 1);
    DigitsLength(j, 1);
    DigitsLength(|d1|, 10);
  }

  lemma OppositeUp(up: seq<bool>, s: nat)
    requires |up| == 4 && s < 2 && up[s] && up[s + 2]
    ensures !AdjacentDown(up)
  {
  }

  lemma AdjacentWitness(up: seq<bool>)
    requires |up| == 4 && !(up[0] && up[2]) && !(up[1] && up[3])
    ensures AdjacentDown(up)
  {
    var s := if !up[0] && !up[1] then 0 else if !up[1] && !up[2] then 1 else if !up[2] && !up[3] then 2 else 3;
    assert PairDown(up, s);
  }

  /** Two opposite servers have all four pieces between them. */
  lemma JoinOpposite(pieces: Pieces, files: seq<Files>, f: File, file: Bytes, bin: nat, s: nat, t: nat)
    requires |files| == 4 && bin < 4 && s < 4 && t < 4 && t == (s + 2) % 4
    requires Stored(files[s], f, file, bin, s) && Stored(files[t], f, file, bin, t)
    requires |Held(files[s], NormalPath(f.user, f.path), f.name, 0)| >= 2
    requires |Held(files[t], NormalPath(f.user, f.path), f.name, 0)| >= 2
    ensures Joined(Take(Take(pieces, files, f, s), files, f, t)) == file
  {
    hide Stored, Held, Piece, NormalPath, Take;
    TakeStored(pieces, files, f, file, bin, s);
    var half := Take(pieces, files, f, s);
    TakeStored(half, files, f, file, bin, t);
    var all := Take(half, files, f, t);
    forall i: nat | i < 4
      ensures i in all && all[i] == Piece(file, i)
    {
      assert Hosts(s, bin, i) || Hosts(t, bin, i);
    }
    PiecesMakeFile(file);
  }

  /** With an empty last piece the two servers that should hold it never answer, and they are neighbours. */
  lemma FetchNothing(files: seq<Files>, up: seq<bool>, f: File, file: Bytes, bin: nat)
    requires |files| == |up| == 4 && bin < 4 && AllStored(files, f, file, bin) && 3 * PieceLength(|file|) >= |file|
    ensures Fetched(files, up, f) == None
  {
    hide Stored, Held, PieceLength, Piece, NormalPath;
    PiecesNonempty(file);
    forall s | 0 <= s < 4 && Hosts(s, bin, 3)
      ensures !Answers(files, up, f, s)
    {
      StoredAnswers(files[s], f, file, bin, s);
    }
    assert Hosts(0, bin, 3) || Hosts(2, bin, 3);
    assert Hosts(1, bin, 3) || Hosts(3, bin, 3);
  }

  /** One PUT with all servers up into a fresh namespace, then a GET with any servers down: the file comes back
      exactly when the first three pieces do not use it up and no two neighbouring servers are down. */
  method StoreAndFetch(servers: seq<Server>, f: File, file: Bytes, bin: nat, up: seq<bool>) returns (r: Option<Bytes>)
    requires Four(servers) && bin < 4 && |up| == 4
    requires forall s :: 0 <= s < 4 ==> Acceptable(servers[s].users, f) && Fresh(servers[s].files, f)
    requires forall i :: 0 <= i < 4 ==> |PutMessage(f, i, file)| <= INT_MAX
    modifies servers
    ensures r == if 3 * PieceLength(|file|) < |file| && !AdjacentDown(up) then Some(file) else None
    ensures |file| >= 10 ==> r == if AdjacentDown(up) then None else Some(file)
  {
    hide Acceptable, PutMessage, Piece, PieceName, NormalPath, GetMessage, Stored, StoredUpTo, Fetched, Hosts;
    forall s | 0 <= s < 4
      ensures StoredUpTo(servers[s].files, f, file, bin, s, 0)
    {
      FreshStored(servers[s].files, f, file, bin, s);
    }
    PutFile(servers, f, file, bin);
    r := GetFile(servers, up, f);
    ghost var files := FilesOf(servers);
    assert AllStored(files, f, file, bin);
    ShortFiles(|file|);
    if 3 * PieceLength(|file|) < |file| {
      FetchWhole(files, up, f, file, bin);
    } else {
      FetchNothing(files, up, f, file, bin);
    }
  }

  /** No piece of the file exists yet. */
  ghost predicate Fresh(files: Files, f: File) {
    forall i :: 0 <= i < 4 ==> PieceName(NormalPath(f.user, f.path), f.name, i) !in files
  }

  lemma FreshStored(files: Files, f: File, file: Bytes, bin: nat, s: nat)
    requires Fresh(files, f)
    ensures StoredUpTo(files, f, file, bin, s, 0)
  {
  }

  lemma GetShorter(f: File, file: Bytes)
    ensures |GetMessage(f)| <= |PutMessage(f, 0, file)|
  {
  }
}
