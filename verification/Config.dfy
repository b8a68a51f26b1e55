/** What the configuration file format of src/ConfigReader.cpp means: the maps a list of lines leaves behind. */
module Config {
  import opened Text
  import opened Words

  /** Number of values of `unsigned int`, and std::string::npos on a 64-bit build. */
  const UINT_RANGE: nat := 0x1_0000_0000
  const NPOS: nat := 0xFFFF_FFFF_FFFF_FFFF

  datatype Config = Config(settings: map<string, string>, users: map<string, string>)

  const EMPTY := Config(map[], map[])

  /** The lines successive calls of std::getline deliver: a final newline starts no further line. */
  function Lines(s: string): seq<string>
    decreases |s|
  {
    if s == "" then []
    else
      var i := IndexOf(s, '\n');
      if i == |s| then [s] else [s[..i]] + Lines(s[i + 1..])
  }

  /** std::remove followed by erase. */
  function Without(s: string, c: char): (r: string)
    ensures c !in r && forall x :: x in r ==> x in s
    ensures c !in s ==> r == s
  {
    if s == "" then ""
    else if s[0] == c then Without(s[1..], c)
    else [s[0]] + Without(s[1..], c)
  }

  /** A line without its comment and its carriage returns. */
  function Data(line: string): (d: string)
    ensures '#' !in d && '\r' !in d && forall x :: x in d ==> x in line
    ensures '#' !in line && '\r' !in line ==> d == line
  {
    Without(line[..IndexOf(line, '#')], '\r')
  }

  /** `find` stored in an `unsigned int`. */
  function Length(data: string, delimiter: char): nat {
    var found := IndexOf(data, delimiter);
    (if found < |data| then found else NPOS) % UINT_RANGE
  }

  /** The text in front of the delimiter: data.substr(0, length). */
  function Front(data: string, delimiter: char): (r: string)
    ensures delimiter !in r && |r| < UINT_RANGE && forall x :: x in r ==> x in data
  {
    var length := Length(data, delimiter);
    if length <= |data| then
      var found := IndexOf(data, delimiter);
      assert found < |data| ==> data[..length] == data[..found][..length];
      data[..length]
    else data
  }

  /** The text behind it: data.substr(length + 1), the sum taken in `unsigned int`. */
  function Back(data: string, delimiter: char): (r: string)
    ensures forall x :: x in r ==> x in data
  {
    var start := (Length(data, delimiter) + 1) % UINT_RANGE;
    assert start <= |data|;
    data[start..]
  }

  /** The reduced tag and value of a line, unless one of them is empty. */
  function Fields(data: string, delimiter: char): Option<(string, string)> {
    var tag, value := Reduced(Front(data, delimiter)), Reduced(Back(data, delimiter));
    if tag == "" || value == "" then None else Some((tag, value))
  }

  /** One round of the users block: the users then, the lines left, and whether the block has ended. */
  datatype Round = Round(users: map<string, string>, rest: seq<string>, ended: bool)

  /** The line behind a login line sets that user's password, whatever its own tag is; if it has none, the login is
      lost. */
  function WithPassword(name: string, data: string, users: map<string, string>): map<string, string> {
    var password := Fields(data, ':');
    if data == "" || password.None? then users else users[name := password.value.1]
  }

  function UsersRound(lines: seq<string>, users: map<string, string>): (r: Round)
    requires lines != []
    ensures |r.rest| < |lines|
  {
    var data, rest := Data(lines[0]), lines[1..];
    if data == "" then Round(users, rest, false)
    else if '}' in data then Round(users, rest, true)
    else
      var login := Fields(data, ':');
      if login.None? || login.value.0 != "login" then Round(users, rest, false)
      else if rest == [] then Round(users, [], true)
      else if '}' in rest[0] then Round(users, rest[1..], true)
      else Round(WithPassword(login.value.1, Data(rest[0]), users), rest[1..], false)
  }

  /** The users block, up to its closing brace or the end of the lines: the users, and the lines behind it. */
  function AfterUsers(lines: seq<string>, users: map<string, string>): (r: (map<string, string>, seq<string>))
    ensures |r.1| <= |lines|
    decreases |lines|
  {
    if lines == [] then (users, [])
    else
      var r := UsersRound(lines, users);
      if r.ended then (r.users, r.rest) else AfterUsers(r.rest, r.users)
  }

  /** What one line outside a users block does; `{` anywhere in it opens one. */
  function LineRound(lines: seq<string>, c: Config): (r: (Config, seq<string>))
    requires lines != []
    ensures |r.1| < |lines|
  {
    var data, rest := Data(lines[0]), lines[1..];
    if data == "" then (c, rest)
    else if '{' in data then var (users, more) := AfterUsers(rest, c.users); (c.(users := users), more)
    else
      match Fields(data, '=')
      case None => (c, rest)
      case Some((tag, value)) => (c.(settings := c.settings[tag := value]), rest)
  }

  /** The whole file. */
  function AfterLines(lines: seq<string>, c: Config): Config
    decreases |lines|
  {
    if lines == [] then c else var (next, rest) := LineRound(lines, c); AfterLines(rest, next)
  }

  function Parsed(file: string): Config {
    AfterLines(Lines(file), EMPTY)
  }

  // ---- Two departures ----

  /** What is kept of the tag of a line without a delimiter: all of it, up to the largest `unsigned int`. */
  function Whole(data: string): string {
    if |data| < UINT_RANGE then data else data[..UINT_RANGE - 1]
  }

  /** A line without its delimiter is stored whole, as tag and as value: npos does not survive in an `unsigned int`. */
  lemma NoDelimiterStoresLine(data: string, delimiter: char)
    requires delimiter !in data
    ensures Front(data, delimiter) == Whole(data) && Back(data, delimiter) == data
    ensures |data| < UINT_RANGE ==>
      Fields(data, delimiter) == if Reduced(data) == "" then None else Some((Reduced(data), Reduced(data)))
  {
    assert NPOS % UINT_RANGE == UINT_RANGE - 1;
    assert data[0..] == data;
    assert |data| == UINT_RANGE - 1 ==> data[..|data|] == data;
  }

  /** The assignment that insists on the tag of a password line. */
  function WithTaggedPassword(name: string, data: string, users: map<string, string>): map<string, string> {
    var password := Fields(data, ':');
    if data == "" || password.None? || password.value.0 != "password" then users else users[name := password.value.1]
  }

  /** Insisting on it would make no difference exactly when the line has no two fields, or has that tag, or tells the
      password the user has already. */
  lemma PasswordTagIff(name: string, data: string, users: map<string, string>)
    ensures WithPassword(name, data, users) == WithTaggedPassword(name, data, users)
      <==> (data == "" || Fields(data, ':').None? || Fields(data, ':').value.0 == "password"
           || (name in users && users[name] == Fields(data, ':').value.1))
  {
    var password := Fields(data, ':');
    if password.Some? { assert name in users[name := password.value.1]; }
  }

  // ---- What is stored ----

  predicate Plain(s: string) {
    s != "" && Canonical(s) && '#' !in s && '\r' !in s && '\n' !in s
  }

  predicate StoredTag(t: string) {
    Plain(t) && '{' !in t && '=' !in t && |t| < UINT_RANGE
  }

  predicate StoredValue(v: string) {
    Plain(v) && '{' !in v
  }

  predicate StoredCredential(s: string) {
    Plain(s) && '}' !in s
  }

  predicate Stored(c: Config) {
    && (forall t :: t in c.settings ==> StoredTag(t) && StoredValue(c.settings[t]))
    && (forall u :: u in c.users ==> StoredCredential(u) && StoredCredential(c.users[u]))
  }

  predicate OneLine(lines: seq<string>) {
    forall i :: 0 <= i < |lines| ==> '\n' !in lines[i]
  }

  lemma {:induction false} LinesHaveNoNewline(s: string)
    ensures OneLine(Lines(s))
    decreases |s|
  {
    if s == "" {
    } else {
      var i := IndexOf(s, '\n');
      if i < |s| { LinesHaveNoNewline(s[i + 1..]); }
    }
  }

  /** A reduced piece of a line stores no character the line does not have, save the space. */
  lemma ReducedIsPlain(data: string, piece: string)
    requires '#' !in data && '\r' !in data && '\n' !in data
    requires forall c :: c in piece ==> c in data
    requires Reduced(piece) != ""
    ensures Plain(Reduced(piece))
    ensures forall c :: c in Reduced(piece) ==> c == ' ' || c in piece
    ensures |Reduced(piece)| <= |piece|
  {
    ReducedFixesCanonical(piece);
    LengthOfReduced(piece);
    forall c | c in Reduced(piece) ensures c == ' ' || c in piece {
      CharsOfReduced(piece, c);
    }
  }

  lemma FieldsArePlain(line: string, delimiter: char)
    requires '\n' !in line && delimiter != ' '
    ensures Fields(Data(line), delimiter).Some? ==>
      var (tag, value) := Fields(Data(line), delimiter).value;
      && Plain(tag) && Plain(value) && delimiter !in tag && |tag| < UINT_RANGE
      && forall c :: c in tag || c in value ==> c == ' ' || c in Data(line)
  {
    var data := Data(line);
    if Fields(data, delimiter).Some? {
      ReducedIsPlain(data, Front(data, delimiter));
      ReducedIsPlain(data, Back(data, delimiter));
    }
  }

  lemma WithPasswordStored(name: string, line: string, c: Config)
    requires Stored(c) && StoredCredential(name) && '\n' !in line && '}' !in line
    ensures Stored(c.(users := WithPassword(name, Data(line), c.users)))
  {
    FieldsArePlain(line, ':');
    var password := Fields(Data(line), ':');
    if password.Some? { assert StoredCredential(password.value.1); }
  }

  lemma UsersRoundStored(lines: seq<string>, c: Config)
    requires Stored(c) && OneLine(lines) && lines != []
    ensures Stored(c.(users := UsersRound(lines, c.users).users)) && OneLine(UsersRound(lines, c.users).rest)
  {
    var data := Data(lines[0]);
    var r := UsersRound(lines, c.users);
    FieldsArePlain(lines[0], ':');
    if r.users != c.users {
      assert '}' !in data && Fields(data, ':').Some?;
      var name := Fields(data, ':').value.1;
      assert StoredCredential(name);
      WithPasswordStored(name, lines[1], c);
    }
  }

  lemma {:induction false} UsersStayStored(lines: seq<string>, c: Config)
    requires Stored(c) && OneLine(lines)
    ensures Stored(c.(users := AfterUsers(lines, c.users).0)) && OneLine(AfterUsers(lines, c.users).1)
    decreases |lines|
  {
    if lines == [] {
    } else {
      var r := UsersRound(lines, c.users);
      UsersRoundStored(lines, c);
      if !r.ended { UsersStayStored(r.rest, c.(users := r.users)); }
    }
  }

  lemma LineRoundStored(lines: seq<string>, c: Config)
    requires Stored(c) && OneLine(lines) && lines != []
    ensures Stored(LineRound(lines, c).0) && OneLine(LineRound(lines, c).1)
  {
    FieldsArePlain(lines[0], '=');
    UsersStayStored(lines[1..], c);
  }

  lemma {:induction false} LinesStayStored(lines: seq<string>, c: Config)
    requires Stored(c) && OneLine(lines)
    ensures Stored(AfterLines(lines, c))
    decreases |lines|
  {
    if lines == [] {
    } else {
      LineRoundStored(lines, c);
      LinesStayStored(LineRound(lines, c).1, LineRound(lines, c).0);
    }
  }

  /** Whatever the file, what it leaves behind is stored in canonical form. */
  lemma ParsedIsStored(file: string)
    ensures Stored(Parsed(file))
  {
    LinesHaveNoNewline(file);
    LinesStayStored(Lines(file), EMPTY);
  }
}
