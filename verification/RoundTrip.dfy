/** The two dump functions of src/ConfigReader.cpp against the parser. */
module RoundTrip {
  import opened Text
  import opened Words
  import opened Config

  // ---- Printing ----

  function SettingLine(t: string, v: string): string { t + " = " + v }

  function UserLine(u: string): string { "login: \t" + u }

  function PasswordLine(p: string): string { "password: " + p }

  function PrintLines(lines: seq<string>): string {
    if lines == [] then "" else lines[0] + ['\n'] + PrintLines(lines[1..])
  }

  function SettingLines(ks: seq<string>, m: map<string, string>): seq<string>
    requires forall k :: k in ks ==> k in m
  {
    if ks == [] then [] else [SettingLine(ks[0], m[ks[0]])] + SettingLines(ks[1..], m)
  }

  function UserLines(ks: seq<string>, m: map<string, string>): seq<string>
    requires forall k :: k in ks ==> k in m
  {
    if ks == [] then [] else [UserLine(ks[0]), PasswordLine(m[ks[0]])] + UserLines(ks[1..], m)
  }

  /** The keys in the order of std::map: by the first differing byte, a proper prefix first. */
  predicate Less(a: string, b: string) {
    if b == "" then false
    else if a == "" then true
    else a[0] < b[0] || (a[0] == b[0] && Less(a[1..], b[1..]))
  }

  lemma {:induction false} LessTotal(a: string, b: string)
    ensures a == b || Less(a, b) || Less(b, a)
  {
    if a == "" || b == "" || a[0] != b[0] {
    } else {
      LessTotal(a[1..], b[1..]);
      assert a == [a[0]] + a[1..] && b == [b[0]] + b[1..];
    }
  }

  lemma {:induction false} LessTransitive(a: string, b: string, c: string)
    requires Less(a, b) && Less(b, c)
    ensures Less(a, c)
  {
    if a == "" || a[0] != b[0] || b[0] != c[0] {
    } else {
      LessTransitive(a[1..], b[1..], c[1..]);
    }
  }

  ghost predicate InOrder(ks: seq<string>, keys: set<string>) {
    && (forall i, j :: 0 <= i < j < |ks| ==> Less(ks[i], ks[j]))
    && (forall k :: k in ks <==> k in keys)
  }

  // ---- Reading printed lines ----

  lemma FirstLine(line: string, tail: string)
    requires '\n' !in line
    ensures Lines(line + ['\n'] + tail) == [line] + Lines(tail)
  {
    var s := line + ['\n'] + tail;
    IndexOfAt(line, '\n', tail);
    assert s[..|line|] == line && s[|line| + 1..] == tail;
  }

  lemma {:induction false} LinesOfPrinted(lines: seq<string>)
    requires OneLine(lines)
    ensures Lines(PrintLines(lines)) == lines
  {
    if lines == [] {
    } else {
      var tail := PrintLines(lines[1..]);
      IndexOfAt(lines[0], '\n', tail);
      LinesOfPrinted(lines[1..]);
      FirstLine(lines[0], tail);
    }
  }

  /** Where a printed line is cut, as long as the delimiter's index fits below the range of `length`. */
  lemma Pieces(front: string, delimiter: char, back: string)
    requires delimiter !in front && |front| < UINT_RANGE - 1
    ensures var line := front + [delimiter] + back; Front(line, delimiter) == front && Back(line, delimiter) == back
  {
    var line := front + [delimiter] + back;
    IndexOfAt(front, delimiter, back);
    assert line[..|front|] == front && line[|front| + 1..] == back;
  }

  /** Where it is cut when the index is the last `unsigned int`, or one more: before nothing, and from the start. */
  lemma PiecesWrapped(front: string, delimiter: char, back: string)
    requires delimiter !in front && UINT_RANGE - 1 <= |front| <= UINT_RANGE
    ensures var line := front + [delimiter] + back;
      && Front(line, delimiter) == (if |front| < UINT_RANGE then front else "")
      && (|front| < UINT_RANGE ==> Back(line, delimiter) == line)
  {
    var line := front + [delimiter] + back;
    IndexOfAt(front, delimiter, back);
    assert line[..|front|] == front && line[0..] == line;
  }

  lemma ReducedPadded(before: string, s: string, after: string)
    requires AllBlank(before) && AllBlank(after) && Canonical(s)
    ensures Reduced(before + s + after) == s
  {
    ReducedFixesCanonical(s);
    assert before + s + after == before + (s + after);
    LeadingBlanks(before, s + after);
    TrailingBlanks(s, after);
  }

  /** The value a printed setting is read back with: its own, the whole line, or none, as the tag nears 4 GiB. */
  function ReadBack(t: string, v: string): Option<string> {
    if |t| < UINT_RANGE - 2 then Some(v)
    else if |t| == UINT_RANGE - 2 then Some(SettingLine(t, v))
    else None
  }

  lemma SettingLineCanonical(t: string, v: string)
    requires StoredTag(t) && StoredValue(v)
    ensures Canonical(SettingLine(t, v))
  {
  }

  lemma PaddedSetting(t: string, v: string)
    requires Canonical(t) && Canonical(v)
    ensures Reduced(t + " ") == t && Reduced(" " + v) == v
  {
    assert "" + t + " " == t + " " && " " + v + "" == " " + v;
    ReducedPadded("", t, " ");
    ReducedPadded(" ", v, "");
  }

  lemma SettingFields(t: string, v: string)
    requires StoredTag(t) && StoredValue(v)
    ensures Fields(SettingLine(t, v), '=') == match ReadBack(t, v) case Some(x) => Some((t, x)) case None => None
  {
    var line, front, back := SettingLine(t, v), t + " ", " " + v;
    assert line == front + ['='] + back;
    PaddedSetting(t, v);
    if |t| < UINT_RANGE - 2 {
      Pieces(front, '=', back);
    } else {
      PiecesWrapped(front, '=', back);
      SettingLineCanonical(t, v);
      ReducedFixesCanonical(line);
      NoWords("");
    }
  }

  /** A printed setting goes through the parser with the effect of one assignment, or of none. */
  lemma SettingRound(t: string, v: string, rest: seq<string>, c: Config)
    requires StoredTag(t) && StoredValue(v)
    ensures LineRound([SettingLine(t, v)] + rest, c)
      == (match ReadBack(t, v) case Some(x) => c.(settings := c.settings[t := x]) case None => c, rest)
  {
    SettingFields(t, v);
    assert ([SettingLine(t, v)] + rest)[1..] == rest;
  }

  lemma CredentialFields(tag: string, padding: string, s: string)
    requires Canonical(tag) && tag != "" && ':' !in tag && |tag| < UINT_RANGE - 1 && AllBlank(padding) && Canonical(s)
    requires s != ""
    ensures Fields(tag + [':'] + (padding + s), ':') == Some((tag, s))
  {
    Pieces(tag, ':', padding + s);
    ReducedFixesCanonical(tag);
    assert padding + s + "" == padding + s;
    ReducedPadded(padding, s, "");
  }

  lemma LoginField(u: string)
    requires StoredCredential(u)
    ensures Fields(UserLine(u), ':') == Some(("login", u))
  {
    assert UserLine(u) == "login" + [':'] + (" \t" + u);
    CredentialFields("login", " \t", u);
  }

  /** A line with any tag where the password line is expected. */
  function TaggedLine(tag: string, p: string): string { tag + [':'] + (" " + p) }

  predicate IsTag(tag: string) { StoredCredential(tag) && ':' !in tag && |tag| < UINT_RANGE - 1 }

  lemma TaggedLinePlain(tag: string, p: string)
    requires IsTag(tag) && StoredCredential(p)
    ensures var line := TaggedLine(tag, p); Data(line) == line && '}' !in line && '\n' !in line
  {
  }

  lemma BehindLogin(login: string, u: string, line: string, rest: seq<string>, users: map<string, string>)
    requires Data(login) == login && login != ""
    requires '}' !in login && Fields(login, ':') == Some(("login", u)) && '}' !in line
    ensures UsersRound([login, line] + rest, users) == Round(WithPassword(u, Data(line), users), rest, false)
  {
    var lines := [login, line] + rest;
    assert lines[1..] == [line] + rest && lines[1..][1..] == rest;
  }

  lemma LoginLinePlain(u: string)
    requires StoredCredential(u)
    ensures Data(UserLine(u)) == UserLine(u) && '}' !in UserLine(u)
  {
  }

  /** Any line without a closing brace, behind a printed login. */
  lemma LineBehindLogin(u: string, line: string, rest: seq<string>, users: map<string, string>)
    requires StoredCredential(u) && '}' !in line
    ensures UsersRound([UserLine(u), line] + rest, users) == Round(WithPassword(u, Data(line), users), rest, false)
  {
    LoginField(u);
    LoginLinePlain(u);
    BehindLogin(UserLine(u), u, line, rest, users);
  }

  /** Whatever its tag, the line behind a login line sets that user's password. */
  lemma AnyTagSetsPassword(u: string, tag: string, p: string, rest: seq<string>, users: map<string, string>)
    requires StoredCredential(u) && IsTag(tag) && StoredCredential(p)
    ensures UsersRound([UserLine(u), TaggedLine(tag, p)] + rest, users) == Round(users[u := p], rest, false)
  {
    CredentialFields(tag, " ", p);
    TaggedLinePlain(tag, p);
    LineBehindLogin(u, TaggedLine(tag, p), rest, users);
  }

  /** A printed user goes through the parser with the effect of one assignment, always. */
  lemma UserRound(u: string, p: string, rest: seq<string>, users: map<string, string>)
    requires StoredCredential(u) && StoredCredential(p)
    ensures UsersRound([UserLine(u), PasswordLine(p)] + rest, users) == Round(users[u := p], rest, false)
  {
    assert PasswordLine(p) == TaggedLine("password", p);
    AnyTagSetsPassword(u, "password", p, rest, users);
  }

  // ---- Round trips ----

  /** The settings a dump of `m` leaves when it is read on top of `acc`. */
  function Reread(ks: seq<string>, m: map<string, string>, acc: map<string, string>): map<string, string>
    requires forall k :: k in ks ==> k in m
  {
    if ks == [] then acc
    else
      Reread(ks[1..], m, match ReadBack(ks[0], m[ks[0]]) case Some(x) => acc[ks[0] := x] case None => acc)
  }

  lemma {:induction false} SettingLinesRead(ks: seq<string>, m: map<string, string>, more: seq<string>, c: Config)
    requires forall k :: k in ks ==> k in m && StoredTag(k) && StoredValue(m[k])
    ensures AfterLines(SettingLines(ks, m) + more, c) == AfterLines(more, c.(settings := Reread(ks, m, c.settings)))
  {
    if ks == [] {
      assert SettingLines(ks, m) + more == more;
    } else {
      var rest := SettingLines(ks[1..], m) + more;
      assert SettingLines(ks, m) + more == [SettingLine(ks[0], m[ks[0]])] + rest;
      SettingRound(ks[0], m[ks[0]], rest, c);
      var next := LineRound([SettingLine(ks[0], m[ks[0]])] + rest, c).0;
      SettingLinesRead(ks[1..], m, more, next);
    }
  }

  lemma {:induction false} RereadAt(ks: seq<string>, m: map<string, string>, acc: map<string, string>, t: string)
    requires forall k :: k in ks ==> k in m
    ensures var r := Reread(ks, m, acc);
      if t in ks && ReadBack(t, m[t]).Some? then t in r && r[t] == ReadBack(t, m[t]).value
      else (t in r <==> t in acc) && (t in r ==> r[t] == acc[t])
  {
    if ks == [] {
    } else {
      var next := match ReadBack(ks[0], m[ks[0]]) case Some(x) => acc[ks[0] := x] case None => acc;
      RereadAt(ks[1..], m, next, t);
    }
  }

  predicate ShortTags(m: map<string, string>) {
    forall t :: t in m ==> |t| < UINT_RANGE - 2
  }

  lemma RereadIff(ks: seq<string>, m: map<string, string>)
    requires forall k :: k in ks <==> k in m
    requires forall k :: k in m ==> |k| < UINT_RANGE
    ensures Reread(ks, m, map[]) == m <==> ShortTags(m)
  {
    var r := Reread(ks, m, map[]);
    if ShortTags(m) {
      forall t ensures (t in r <==> t in m) && (t in m ==> r[t] == m[t]) { RereadAt(ks, m, map[], t); }
      assert r == m;
    } else {
      var t :| t in m && |t| >= UINT_RANGE - 2;
      RereadAt(ks, m, map[], t);
      assert t in r ==> |r[t]| > |m[t]|;
    }
  }

  /** The entries of `m` with the given keys. */
  function Part(ks: seq<string>, m: map<string, string>): map<string, string>
    requires forall k :: k in ks ==> k in m
  {
    map k | k in ks :: m[k]
  }

  lemma PartCons(ks: seq<string>, m: map<string, string>, users: map<string, string>)
    requires ks != [] && forall k :: k in ks ==> k in m
    ensures users[ks[0] := m[ks[0]]] + Part(ks[1..], m) == users + Part(ks, m)
  {
  }

  lemma {:induction false} UserLinesRead(
    ks: seq<string>, m: map<string, string>, more: seq<string>, users: map<string, string>)
    requires forall k :: k in ks ==> k in m && StoredCredential(k) && StoredCredential(m[k])
    ensures AfterUsers(UserLines(ks, m) + more, users) == AfterUsers(more, users + Part(ks, m))
  {
    if ks == [] {
      assert UserLines(ks, m) + more == more;
      assert users + Part(ks, m) == users;
    } else {
      var rest := UserLines(ks[1..], m) + more;
      assert UserLines(ks, m) + more == [UserLine(ks[0]), PasswordLine(m[ks[0]])] + rest;
      UserRound(ks[0], m[ks[0]], rest, users);
      PartCons(ks, m, users);
      UserLinesRead(ks[1..], m, more, users[ks[0] := m[ks[0]]]);
    }
  }

  lemma {:induction false} PrintedLinesAreOneLine(ks: seq<string>, m: map<string, string>)
    requires forall k :: k in ks ==> k in m
    requires forall k :: k in ks ==> '\n' !in k && '\n' !in m[k]
    ensures OneLine(SettingLines(ks, m)) && OneLine(UserLines(ks, m))
  {
    if ks == [] {
    } else {
      PrintedLinesAreOneLine(ks[1..], m);
    }
  }

  /** The text dumpFileValues prints for settings with these keys, and dumpUsersValues between two brace lines. */
  function SettingsText(ks: seq<string>, c: Config): string
    requires forall k :: k in ks ==> k in c.settings
  {
    PrintLines(SettingLines(ks, c.settings))
  }

  function UsersText(ks: seq<string>, c: Config): string
    requires forall k :: k in ks ==> k in c.users
  {
    PrintLines(UserLines(ks, c.users))
  }

  lemma {:induction false} PrintLinesAppend(a: seq<string>, b: seq<string>)
    ensures PrintLines(a + b) == PrintLines(a) + PrintLines(b)
  {
    if a == [] {
      assert a + b == b;
    } else {
      assert (a + b)[1..] == a[1..] + b;
      PrintLinesAppend(a[1..], b);
    }
  }

  /** For every file: parsing what dumpFileValues prints rebuilds the settings exactly when no tag nears 4 GiB. */
  lemma SettingsRoundTripIff(file: string, ks: seq<string>)
    requires forall k :: k in ks <==> k in Parsed(file).settings
    ensures var c := Parsed(file);
      Parsed(SettingsText(ks, c)) == Config(c.settings, map[]) <==> ShortTags(c.settings)
  {
    var c := Parsed(file);
    ParsedIsStored(file);
    PrintedLinesAreOneLine(ks, c.settings);
    var lines := SettingLines(ks, c.settings);
    LinesOfPrinted(lines);
    SettingLinesRead(ks, c.settings, [], EMPTY);
    assert lines + [] == lines;
    RereadIff(ks, c.settings);
  }

  lemma LongTagFields(t: string)
    requires StoredTag(t) && |t| < UINT_RANGE - 1
    ensures Fields(t + ['='] + "v", '=') == Some((t, "v"))
  {
    Pieces(t, '=', "v");
    ReducedFixesCanonical(t);
    ReducedFixesCanonical("v");
  }

  lemma LongTagLine(t: string)
    requires StoredTag(t)
    ensures var line := t + ['='] + "v"; Data(line) == line && line != "" && '{' !in line && '\n' !in line
  {
  }

  lemma OneSetting(line: string, t: string, v: string)
    requires Data(line) == line && line != "" && '{' !in line && Fields(line, '=') == Some((t, v))
    ensures AfterLines([line], EMPTY) == Config(map[t := v], map[])
  {
    assert [line][1..] == [];
    assert LineRound([line], EMPTY) == (Config(map[t := v], map[]), []);
  }

  lemma LongTagStored(t: string)
    requires StoredTag(t) && |t| < UINT_RANGE - 1
    ensures Parsed(PrintLines([t + ['='] + "v"])).settings == map[t := "v"]
  {
    LongTagLine(t);
    LongTagFields(t);
    LinesOfPrinted([t + ['='] + "v"]);
    OneSetting(t + ['='] + "v", t, "v");
  }

  /** There are files whose settings the round trip does not rebuild: one line with a long tag makes one. */
  lemma SomeFileHasLongTag()
    ensures exists file :: !ShortTags(Parsed(file).settings)
  {
    var t := seq(UINT_RANGE - 2, _ => 'a');
    LongTagStored(t);
    assert !ShortTags(Parsed(PrintLines([t + ['='] + "v"])).settings);
  }

  function BlockLines(ks: seq<string>, c: Config): seq<string>
    requires forall k :: k in ks ==> k in c.users
  {
    ["{"] + UserLines(ks, c.users) + ["}"]
  }

  lemma BlockText(ks: seq<string>, c: Config)
    requires forall k :: k in ks <==> k in c.users
    requires Stored(c)
    ensures PrintLines(BlockLines(ks, c)) == "{\n" + UsersText(ks, c) + "}\n"
    ensures OneLine(BlockLines(ks, c)) && Lines(PrintLines(BlockLines(ks, c))) == BlockLines(ks, c)
  {
    PrintedLinesAreOneLine(ks, c.users);
    PrintLinesAppend(["{"] + UserLines(ks, c.users), ["}"]);
    PrintLinesAppend(["{"], UserLines(ks, c.users));
    assert PrintLines(["{"]) == "{\n" && PrintLines(["}"]) == "}\n";
    LinesOfPrinted(BlockLines(ks, c));
  }

  lemma WholePart(ks: seq<string>, m: map<string, string>)
    requires forall k :: k in ks <==> k in m
    ensures map[] + Part(ks, m) == m
  {
  }

  lemma BlockRound(lines: seq<string>, start: Config, users: map<string, string>)
    requires lines != [] && lines[0] == "{" && AfterUsers(lines[1..], start.users) == (users, [])
    ensures AfterLines(lines, start) == start.(users := users)
  {
  }

  lemma BraceLines(users: map<string, string>)
    ensures AfterUsers(["}"], users) == (users, []) && Data("{") == "{"
  {
  }

  lemma UsersBlockRead(ks: seq<string>, m: map<string, string>)
    requires forall k :: k in ks <==> k in m
    requires forall k :: k in m ==> StoredCredential(k) && StoredCredential(m[k])
    ensures AfterUsers(UserLines(ks, m) + ["}"], map[]) == (m, [])
  {
    WholePart(ks, m);
    UserLinesRead(ks, m, ["}"], map[]);
    BraceLines(m);
  }

  lemma BlockTail(ks: seq<string>, c: Config)
    requires forall k :: k in ks <==> k in c.users
    requires Stored(c)
    ensures var lines := BlockLines(ks, c); lines[0] == "{" && AfterUsers(lines[1..], map[]) == (c.users, [])
  {
    UsersBlockRead(ks, c.users);
    assert BlockLines(ks, c)[1..] == UserLines(ks, c.users) + ["}"];
  }

  lemma BlockRead(ks: seq<string>, c: Config, start: Config)
    requires forall k :: k in ks <==> k in c.users
    requires Stored(c) && start.users == map[]
    ensures AfterLines(BlockLines(ks, c), start) == start.(users := c.users)
  {
    BlockTail(ks, c);
    BraceLines(c.users);
    BlockRound(BlockLines(ks, c), start, c.users);
  }

  /** For every file: the printed users, between brace lines, parse back to the same users. */
  lemma UsersRoundTrip(file: string, ks: seq<string>)
    requires forall k :: k in ks <==> k in Parsed(file).users
    ensures Parsed("{\n" + UsersText(ks, Parsed(file)) + "}\n") == Config(map[], Parsed(file).users)
  {
    ParsedIsStored(file);
    BlockText(ks, Parsed(file));
    BlockRead(ks, Parsed(file), EMPTY);
  }

  /** A whole file that sets a password on a line with another tag. */
  lemma AnyTagInFile(u: string, tag: string, p: string)
    requires StoredCredential(u) && IsTag(tag) && StoredCredential(p)
    ensures Parsed(PrintLines(["{", UserLine(u), TaggedLine(tag, p), "}"])) == Config(map[], map[u := p])
  {
    var lines := ["{", UserLine(u), TaggedLine(tag, p), "}"];
    TaggedLinePlain(tag, p);
    LinesOfPrinted(lines);
    AnyTagSetsPassword(u, tag, p, ["}"], map[]);
    assert lines[1..] == [UserLine(u), TaggedLine(tag, p)] + ["}"];
    BraceLines(map[u := p]);
    BlockRound(lines, EMPTY, map[u := p]);
  }

  lemma BothRead(c: Config, tags: seq<string>, names: seq<string>)
    requires Stored(c)
    requires forall k :: k in tags <==> k in c.settings
    requires forall k :: k in names <==> k in c.users
    ensures AfterLines(SettingLines(tags, c.settings) + BlockLines(names, c), EMPTY)
      == Config(Reread(tags, c.settings, map[]), c.users)
  {
    SettingLinesRead(tags, c.settings, BlockLines(names, c), EMPTY);
    BlockRead(names, c, Config(Reread(tags, c.settings, map[]), map[]));
  }

  /** Both dumps in one file: the whole configuration comes back, under the same condition. */
  lemma FullRoundTripIff(file: string, tags: seq<string>, names: seq<string>)
    requires forall k :: k in tags <==> k in Parsed(file).settings
    requires forall k :: k in names <==> k in Parsed(file).users
    ensures var c := Parsed(file);
      Parsed(SettingsText(tags, c) + ("{\n" + UsersText(names, c) + "}\n")) == c <==> ShortTags(c.settings)
  {
    var c := Parsed(file);
    ParsedIsStored(file);
    PrintedLinesAreOneLine(tags, c.settings);
    BlockText(names, c);
    var first, second := SettingLines(tags, c.settings), BlockLines(names, c);
    PrintLinesAppend(first, second);
    LinesOfPrinted(first + second);
    BothRead(c, tags, names);
    RereadIff(tags, c.settings);
  }
}
