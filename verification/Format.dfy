/** The configuration file format character by character: what a line is, what of it counts, and what it does. */
module Format {
  import opened Text
  import opened Words
  import opened Config
  import opened RoundTrip

  // ---- Lines, comments, carriage returns ----

  /** A newline ends a line; the last line may do without. */
  lemma LinesLaws(line: string, rest: string)
    requires '\n' !in line
    ensures Lines(line + "\n" + rest) == [line] + Lines(rest)
    ensures Lines("") == [] && (line != "" ==> Lines(line) == [line])
  {
    FirstLine(line, rest);
    assert line + ['\n'] + rest == line + "\n" + rest;
  }

  lemma {:induction false} WithoutParts(a: string, b: string, c: char)
    ensures Without(a + b, c) == Without(a, c) + Without(b, c)
  {
    if a == "" {
      assert a + b == b;
    } else {
      assert (a + b)[1..] == a[1..] + b;
      WithoutParts(a[1..], b, c);
    }
  }

  /** Every other character stays, in its place. */
  lemma WithoutOne(x: char, c: char)
    ensures Without([x], c) == (if x == c then "" else [x]) && Without("", c) == ""
  {
    assert [x][1..] == "";
  }

  /** Nothing, or a comment to the end of the line. */
  predicate Comment(tail: string) { tail == "" || tail[0] == '#' }

  /** What counts of a line is what stands in front of its first '#', without the carriage returns. */
  lemma CommentIsCut(content: string, tail: string)
    requires '#' !in content && Comment(tail)
    ensures Data(content + tail) == Without(content, '\r')
  {
    if tail == "" {
      assert content + tail == content;
      assert content[..IndexOf(content, '#')] == content;
    } else {
      assert content + tail == content + ['#'] + tail[1..];
      IndexOfAt(content, '#', tail[1..]);
      assert (content + ['#'] + tail[1..])[..|content|] == content;
    }
  }

  // ---- Fields ----

  lemma LengthLaw(front: string, delimiter: char, back: string)
    requires delimiter !in front
    ensures Length(front + [delimiter] + back, delimiter) == |front| % 0x1_0000_0000
  {
    IndexOfAt(front, delimiter, back);
  }

  lemma SubstrLaw(line: string, delimiter: char)
    requires Length(line, delimiter) < |line|
    ensures Front(line, delimiter) == line[..Length(line, delimiter)]
    ensures Back(line, delimiter) == line[(Length(line, delimiter) + 1) % 0x1_0000_0000..]
  {
  }

  lemma WrappedPositions(n: nat)
    ensures n % 0x1_0000_0000 <= n && (n + 1) % 0x1_0000_0000 <= n + 1
    ensures (n % 0x1_0000_0000 + 1) % 0x1_0000_0000 == (n + 1) % 0x1_0000_0000
  {
  }

  /** Where a line is cut: at its first delimiter, the position and the one behind it taken modulo 2^32. */
  lemma CutLaw(front: string, delimiter: char, back: string)
    requires delimiter !in front
    ensures var line, at, behind := front + [delimiter] + back, |front| % 0x1_0000_0000, (|front| + 1) % 0x1_0000_0000;
      && at < |line| && Front(line, delimiter) == line[..at]
      && behind <= |line| && Back(line, delimiter) == line[behind..]
  {
    LengthLaw(front, delimiter, back);
    WrappedPositions(|front|);
    SubstrLaw(front + [delimiter] + back, delimiter);
  }

  lemma FieldsLaw(front: string, delimiter: char, back: string)
    requires delimiter !in front && |front| < 0xFFFF_FFFF
    ensures Fields(front + [delimiter] + back, delimiter)
      == if Reduced(front) == "" || Reduced(back) == "" then None else Some((Reduced(front), Reduced(back)))
  {
    Pieces(front, delimiter, back);
  }

  // ---- Lines outside a users block ----

  lemma BlankFields(data: string, delimiter: char)
    requires (forall x :: x in data ==> x == ' ' || x == '\t') && delimiter != ' ' && delimiter != '\t'
    ensures Fields(data, delimiter).None? && '{' !in data && '}' !in data
  {
    var front := Front(data, delimiter);
    forall i | 0 <= i < |front| ensures IsBlank(front[i]) { assert front[i] in front; }
    NoWords(front);
  }

  /** A text that leaves nothing but spaces and tabs is no line at all. */
  lemma BlankLine(content: string, tail: string, rest: seq<string>, c: Config)
    requires '#' !in content && Comment(tail) && (forall x :: x in content ==> x == ' ' || x == '\t' || x == '\r')
    ensures AfterLines([content + tail] + rest, c) == AfterLines(rest, c)
    ensures AfterUsers([content + tail] + rest, c.users) == AfterUsers(rest, c.users)
  {
    CommentIsCut(content, tail);
    var data := Without(content, '\r');
    BlankFields(data, '=');
    BlankFields(data, ':');
    assert ([content + tail] + rest)[1..] == rest;
  }

  lemma SettingData(tag: string, value: string, tail: string)
    requires '#' !in tag && '#' !in value && Comment(tail)
    ensures Data(tag + "=" + value + tail) == Without(tag, '\r') + ['='] + Without(value, '\r')
  {
    CommentIsCut(tag + "=" + value, tail);
    WithoutParts(tag + "=", value, '\r');
    WithoutParts(tag, "=", '\r');
    WithoutOne('=', '\r');
  }

  lemma {:induction false} WithoutShorter(s: string, c: char)
    ensures |Without(s, c)| <= |s|
  {
    if s == "" {
    } else {
      WithoutShorter(s[1..], c);
    }
  }

  lemma SettingEffect(line: string, data: string, rest: seq<string>, c: Config)
    requires Data(line) == data && data != "" && '{' !in data
    ensures AfterLines([line] + rest, c)
      == AfterLines(rest, match Fields(data, '=')
                          case None => c
                          case Some((t, v)) => c.(settings := c.settings[t := v]))
  {
    assert ([line] + rest)[1..] == rest;
  }

  /** A setting: a tag, the first '=', a value, carriage returns and a comment wherever. It assigns the reduced value to
      the reduced tag, or does nothing when one of them is empty. */
  lemma SettingLaw(tag: string, value: string, tail: string, rest: seq<string>, c: Config)
    requires '=' !in tag && '#' !in tag && '#' !in value && '{' !in tag && '{' !in value && Comment(tail)
    requires |tag| < 0xFFFF_FFFF
    ensures var t, v := Reduced(Without(tag, '\r')), Reduced(Without(value, '\r'));
      AfterLines([tag + "=" + value + tail] + rest, c)
        == AfterLines(rest, if t == "" || v == "" then c else c.(settings := c.settings[t := v]))
  {
    var line := tag + "=" + value + tail;
    SettingData(tag, value, tail);
    WithoutShorter(tag, '\r');
    FieldsLaw(Without(tag, '\r'), '=', Without(value, '\r'));
    SettingEffect(line, Without(tag, '\r') + ['='] + Without(value, '\r'), rest, c);
  }

  lemma {:induction false} WithoutKeeps(s: string, c: char, x: char)
    requires x in s && x != c
    ensures x in Without(s, c)
  {
    if s[0] == x {
    } else {
      WithoutKeeps(s[1..], c, x);
    }
  }

  /** A '{' anywhere in front of the comment opens a users block; the rest of that line is ignored. */
  lemma BlockOpens(content: string, tail: string, rest: seq<string>, c: Config)
    requires '#' !in content && Comment(tail) && '{' in content
    ensures var (users, more) := AfterUsers(rest, c.users);
      AfterLines([content + tail] + rest, c) == AfterLines(more, c.(users := users))
  {
    CommentIsCut(content, tail);
    WithoutKeeps(content, '\r', '{');
    assert ([content + tail] + rest)[1..] == rest;
  }

  // ---- Lines inside a users block ----

  /** A '}' anywhere in front of the comment ends the block; the rest of that line is ignored. */
  lemma BlockEnds(content: string, tail: string, rest: seq<string>, users: map<string, string>)
    requires '#' !in content && Comment(tail) && '}' in content
    ensures AfterUsers([content + tail] + rest, users) == (users, rest)
  {
    CommentIsCut(content, tail);
    WithoutKeeps(content, '\r', '}');
    assert ([content + tail] + rest)[1..] == rest;
  }

  /** A pair of fields in a users block, with carriage returns and a comment wherever. */
  predicate Entry(tag: string, value: string, tail: string) {
    && ':' !in tag && '#' !in tag && '#' !in value && '}' !in tag && '}' !in value && Comment(tail)
    && |tag| < 0xFFFF_FFFF
  }

  lemma EntryData(tag: string, value: string, tail: string)
    requires Entry(tag, value, tail)
    ensures var data := Data(tag + ":" + value + tail);
      && data != "" && '}' !in data
      && var t, v := Reduced(Without(tag, '\r')), Reduced(Without(value, '\r'));
         Fields(data, ':') == if t == "" || v == "" then None else Some((t, v))
  {
    CommentIsCut(tag + ":" + value, tail);
    WithoutParts(tag + ":", value, '\r');
    WithoutParts(tag, ":", '\r');
    WithoutOne(':', '\r');
    WithoutShorter(tag, '\r');
    FieldsLaw(Without(tag, '\r'), ':', Without(value, '\r'));
  }

  /** An entry whose tag is not "login", or that lacks a field, is skipped where a login is expected. */
  lemma OtherEntry(tag: string, value: string, tail: string, rest: seq<string>, users: map<string, string>)
    requires Entry(tag, value, tail)
    requires Reduced(Without(tag, '\r')) != "login" || Reduced(Without(value, '\r')) == ""
    ensures AfterUsers([tag + ":" + value + tail] + rest, users) == AfterUsers(rest, users)
  {
    EntryData(tag, value, tail);
    assert ([tag + ":" + value + tail] + rest)[1..] == rest;
  }

  predicate Login(tag: string, value: string, tail: string) {
    Entry(tag, value, tail) && Reduced(Without(tag, '\r')) == "login" && Reduced(Without(value, '\r')) != ""
  }

  lemma LastLogin(login: string, users: map<string, string>)
    requires Data(login) != "" && '}' !in Data(login)
    requires Fields(Data(login), ':').Some? && Fields(Data(login), ':').value.0 == "login"
    ensures AfterUsers([login], users) == (users, [])
  {
    assert [login][1..] == [];
    assert UsersRound([login], users) == Round(users, [], true);
  }

  lemma BracedLogin(login: string, brace: string, rest: seq<string>, users: map<string, string>)
    requires Data(login) != "" && '}' !in Data(login) && '}' in brace
    requires Fields(Data(login), ':').Some? && Fields(Data(login), ':').value.0 == "login"
    ensures AfterUsers([login, brace] + rest, users) == (users, rest)
  {
    var lines := [login, brace] + rest;
    assert lines[1..] == [brace] + rest && lines[1..][1..] == rest;
    assert UsersRound(lines, users) == Round(users, rest, true);
  }

  /** A login at the end of the file is lost; so is one in front of a line with a '}', even in a comment, and that line
      ends the block. */
  lemma LoginIsLost(
    tag: string, value: string, tail: string, brace: string, rest: seq<string>, users: map<string, string>)
    requires Login(tag, value, tail) && '}' in brace
    ensures AfterUsers([tag + ":" + value + tail], users) == (users, [])
    ensures AfterUsers([tag + ":" + value + tail, brace] + rest, users) == (users, rest)
  {
    EntryData(tag, value, tail);
    LastLogin(tag + ":" + value + tail, users);
    BracedLogin(tag + ":" + value + tail, brace, rest, users);
  }

  lemma LoginRound(login: string, u: string, line: string, rest: seq<string>, users: map<string, string>)
    requires Data(login) != "" && '}' !in Data(login) && Fields(Data(login), ':') == Some(("login", u))
    requires '}' !in line
    ensures UsersRound([login, line] + rest, users) == Round(WithPassword(u, Data(line), users), rest, false)
  {
    var lines := [login, line] + rest;
    assert lines[1..] == [line] + rest && lines[1..][1..] == rest;
  }

  lemma BehindLoginLine(login: string, u: string, line: string, rest: seq<string>, users: map<string, string>)
    requires Data(login) != "" && '}' !in Data(login) && Fields(Data(login), ':') == Some(("login", u))
    requires '}' !in line
    ensures AfterUsers([login, line] + rest, users) == AfterUsers(rest, WithPassword(u, Data(line), users))
  {
    LoginRound(login, u, line, rest, users);
  }

  lemma NoFields(data: string)
    ensures data == "" ==> Fields(data, ':').None?
  {
    NoWords("");
  }

  /** A login and the line behind it: the second field of that line is the user's password; without one, both lines are
      lost. */
  lemma LoginLaw(
    tag: string, name: string, tail: string, line: string, rest: seq<string>, users: map<string, string>)
    requires Login(tag, name, tail) && '}' !in line
    ensures AfterUsers([tag + ":" + name + tail, line] + rest, users)
      == AfterUsers(rest, match Fields(Data(line), ':')
                          case None => users
                          case Some((_, password)) => users[Reduced(Without(name, '\r')) := password])
  {
    EntryData(tag, name, tail);
    var login := tag + ":" + name + tail;
    NoFields(Data(line));
    BehindLoginLine(login, Reduced(Without(name, '\r')), line, rest, users);
  }

  /** A user as it is written in a file: a login entry, a password entry, spaces, tabs and comments wherever. */
  lemma UserLaw(
    loginTag: string, name: string, tail: string, passwordTag: string, password: string, tail2: string,
    rest: seq<string>, users: map<string, string>)
    requires Login(loginTag, name, tail) && Entry(passwordTag, password, tail2) && '}' !in tail2
    requires Reduced(Without(passwordTag, '\r')) != "" && Reduced(Without(password, '\r')) != ""
    ensures AfterUsers([loginTag + ":" + name + tail, passwordTag + ":" + password + tail2] + rest, users)
      == AfterUsers(rest, users[Reduced(Without(name, '\r')) := Reduced(Without(password, '\r'))])
  {
    LoginLaw(loginTag, name, tail, passwordTag + ":" + password + tail2, rest, users);
    EntryData(passwordTag, password, tail2);
  }

  // ---- Printed entries with comments ----

  /** Spaces, tabs and carriage returns. */
  predicate Pad(s: string) { forall i :: 0 <= i < |s| ==> s[i] == ' ' || s[i] == '\t' || s[i] == '\r' }

  lemma PadBlank(s: string)
    requires Pad(s)
    ensures AllBlank(Without(s, '\r')) && '#' !in s && '{' !in s && '}' !in s
  {
    var r := Without(s, '\r');
    forall i | 0 <= i < |r| ensures IsBlank(r[i]) { assert r[i] in r && r[i] in s; }
  }

  /** A canonical text between blanks, with carriage returns, is that text. */
  lemma PaddedText(before: string, s: string, pad: string)
    requires AllBlank(before) && Canonical(s) && '\r' !in before && '\r' !in s && Pad(pad)
    ensures Reduced(Without(before + s + pad, '\r')) == s
  {
    PadBlank(pad);
    WithoutParts(before + s, pad, '\r');
    ReducedPadded(before, s, Without(pad, '\r'));
  }

  lemma SettingSpelled(t: string, v: string, pad: string, tail: string)
    ensures t + " = " + v + pad + tail == (t + " ") + "=" + (" " + v + pad) + tail
  {
  }

  lemma PaddedTag(t: string)
    requires Canonical(t) && '\r' !in t
    ensures Reduced(Without(t + " ", '\r')) == t
  {
    PaddedText("", t, " ");
    assert "" + t + " " == t + " ";
  }

  /** A line as dumpFileValues prints it, with blanks, carriage returns and a comment behind it, assigns that setting.
      */
  lemma PrintedSettingWithComment(t: string, v: string, pad: string, tail: string, rest: seq<string>, c: Config)
    requires StoredTag(t) && StoredValue(v) && |t| < 0xFFFF_FFFE && Pad(pad) && Comment(tail)
    ensures AfterLines([t + " = " + v + pad + tail] + rest, c)
      == AfterLines(rest, c.(settings := c.settings[t := v]))
  {
    PadBlank(pad);
    PaddedTag(t);
    PaddedText(" ", v, pad);
    SettingSpelled(t, v, pad, tail);
    SettingLaw(t + " ", " " + v + pad, tail, rest, c);
  }

  /** A tag in which there is nothing to cut or to reduce. */
  predicate SimpleTag(tag: string) {
    && 0 < |tag| < 100 && ':' !in tag && '#' !in tag && '}' !in tag && ' ' !in tag && '\t' !in tag && '\r' !in tag
  }

  predicate SimpleBlanks(s: string) { AllBlank(s) && '\r' !in s && '#' !in s && '}' !in s }

  lemma LoginAndPassword()
    ensures SimpleTag("login") && SimpleTag("password") && SimpleBlanks(" \t") && SimpleBlanks(" ")
  {
  }

  lemma PrintedEntry(tag: string, before: string, s: string, pad: string, tail: string)
    requires SimpleTag(tag) && SimpleBlanks(before) && StoredCredential(s) && Pad(pad) && Comment(tail)
    ensures Entry(tag, before + s + pad, tail)
  {
    PadBlank(pad);
  }

  lemma PrintedEntryFields(tag: string, before: string, s: string, pad: string, tail: string, line: string)
    requires SimpleTag(tag) && SimpleBlanks(before) && StoredCredential(s) && Pad(pad) && Comment(tail)
    requires line == tag + ":" + (before + s + pad) + tail
    ensures Data(line) != "" && '}' !in Data(line) && Fields(Data(line), ':') == Some((tag, s))
  {
    PrintedEntry(tag, before, s, pad, tail);
    EntryData(tag, before + s + pad, tail);
    PaddedText(before, s, pad);
    ReducedLaws(tag, ' ', "");
  }

  lemma EntrySpelled(u: string, pad: string, tail: string)
    ensures "login: \t" + u + pad + tail == "login" + ":" + (" \t" + u + pad) + tail
    ensures "password: " + u + pad + tail == "password" + ":" + (" " + u + pad) + tail
  {
  }

  lemma UserRead(login: string, u: string, line: string, p: string, rest: seq<string>, users: map<string, string>)
    requires Data(login) != "" && '}' !in Data(login) && Fields(Data(login), ':') == Some(("login", u))
    requires '}' !in line && Data(line) != "" && Fields(Data(line), ':').Some? && Fields(Data(line), ':').value.1 == p
    ensures AfterUsers([login, line] + rest, users) == AfterUsers(rest, users[u := p])
  {
    BehindLoginLine(login, u, line, rest, users);
  }

  lemma LoginEntry(u: string, pad: string, tail: string)
    requires StoredCredential(u) && Pad(pad) && Comment(tail)
    ensures var data := Data("login: \t" + u + pad + tail);
      data != "" && '}' !in data && Fields(data, ':') == Some(("login", u))
  {
    LoginAndPassword();
    EntrySpelled(u, pad, tail);
    PrintedEntryFields("login", " \t", u, pad, tail, "login: \t" + u + pad + tail);
  }

  lemma PasswordEntry(p: string, pad: string, tail: string)
    requires StoredCredential(p) && Pad(pad) && Comment(tail)
    ensures var data := Data("password: " + p + pad + tail);
      data != "" && '}' !in data && Fields(data, ':') == Some(("password", p))
  {
    LoginAndPassword();
    EntrySpelled(p, pad, tail);
    PrintedEntryFields("password", " ", p, pad, tail, "password: " + p + pad + tail);
  }

  lemma NoBrace(p: string, pad: string, tail: string)
    requires StoredCredential(p) && Pad(pad) && '}' !in tail
    ensures '}' !in "password: " + p + pad + tail
  {
    PadBlank(pad);
  }

  /** Two lines as dumpUsersValues prints them, with blanks, carriage returns and comments behind them. */
  lemma PrintedUserWithComments(
    u: string, p: string, pad: string, tail: string, pad2: string, tail2: string,
    rest: seq<string>, users: map<string, string>)
    requires StoredCredential(u) && StoredCredential(p) && Pad(pad) && Comment(tail) && Pad(pad2) && Comment(tail2)
    requires '}' !in tail2
    ensures AfterUsers(["login: \t" + u + pad + tail, "password: " + p + pad2 + tail2] + rest, users)
      == AfterUsers(rest, users[u := p])
  {
    LoginEntry(u, pad, tail);
    PasswordEntry(p, pad2, tail2);
    NoBrace(p, pad2, tail2);
    UserRead("login: \t" + u + pad + tail, u, "password: " + p + pad2 + tail2, p, rest, users);
  }

  // ---- Comments do not count ----

  /** The lines without their comments and carriage returns. */
  function Stripped(lines: seq<string>): (r: seq<string>)
    ensures |r| == |lines|
  {
    seq(|lines|, i requires 0 <= i < |lines| => Data(lines[i]))
  }

  /** No line has a '}' in its comment alone. */
  predicate BracesCount(lines: seq<string>) {
    forall i :: 0 <= i < |lines| && '}' in lines[i] ==> '}' in Data(lines[i])
  }

  lemma StrippedTail(lines: seq<string>)
    requires lines != []
    ensures Stripped(lines)[0] == Data(lines[0]) && Stripped(lines)[1..] == Stripped(lines[1..])
    ensures Data(Data(lines[0])) == Data(lines[0]) && ('}' in Data(lines[0]) ==> '}' in lines[0])
  {
  }

  lemma UsersRoundStripped(lines: seq<string>, users: map<string, string>)
    requires lines != [] && BracesCount(lines)
    ensures var r := UsersRound(lines, users);
      && UsersRound(Stripped(lines), users) == Round(r.users, Stripped(r.rest), r.ended) && BracesCount(r.rest)
  {
    StrippedTail(lines);
    if lines[1..] != [] { StrippedTail(lines[1..]); }
    assert lines[1..] != [] ==> lines[1..][0] == lines[1];
  }

  lemma {:induction false} UsersStripped(lines: seq<string>, users: map<string, string>)
    requires BracesCount(lines)
    ensures var r := AfterUsers(lines, users);
      AfterUsers(Stripped(lines), users) == (r.0, Stripped(r.1)) && BracesCount(r.1)
    decreases |lines|
  {
    if lines == [] {
      assert Stripped(lines) == [];
    } else {
      var r := UsersRound(lines, users);
      UsersRoundStripped(lines, users);
      if !r.ended { UsersStripped(r.rest, r.users); }
    }
  }

  lemma LineRoundStripped(lines: seq<string>, c: Config)
    requires lines != [] && BracesCount(lines)
    ensures var (next, rest) := LineRound(lines, c);
      LineRound(Stripped(lines), c) == (next, Stripped(rest)) && BracesCount(rest)
  {
    StrippedTail(lines);
    UsersStripped(lines[1..], c.users);
  }

  /** Taking all comments and carriage returns out of a file does not change what it means, provided that no line has a
      '}' in its comment alone; where one has, see LoginIsLost. */
  lemma {:induction false} CommentsDoNotCount(lines: seq<string>, c: Config)
    requires BracesCount(lines)
    ensures AfterLines(Stripped(lines), c) == AfterLines(lines, c)
    decreases |lines|
  {
    if lines == [] {
      assert Stripped(lines) == [];
    } else {
      LineRoundStripped(lines, c);
      CommentsDoNotCount(LineRound(lines, c).1, LineRound(lines, c).0);
    }
  }

  // ---- What the dumps print ----

  lemma SettingsTextLaw(ks: seq<string>, c: Config)
    requires forall k :: k in ks ==> k in c.settings
    ensures SettingsText(ks, c)
      == if ks == [] then "" else ks[0] + " = " + c.settings[ks[0]] + "\n" + SettingsText(ks[1..], c)
  {
  }

  lemma TwoLines(u: string, p: string, rest: string)
    ensures UserLine(u) + ['\n'] + (PasswordLine(p) + ['\n'] + rest)
      == "login: \t" + u + "\n" + "password: " + p + "\n" + rest
  {
  }

  lemma UsersTextLaw(ks: seq<string>, c: Config)
    requires forall k :: k in ks ==> k in c.users
    ensures UsersText(ks, c)
      == if ks == [] then ""
         else "login: \t" + ks[0] + "\n" + "password: " + c.users[ks[0]] + "\n" + UsersText(ks[1..], c)
  {
    if ks != [] {
      var lines := UserLines(ks, c.users);
      assert lines == [UserLine(ks[0]), PasswordLine(c.users[ks[0]])] + UserLines(ks[1..], c.users);
      assert lines[1..] == [PasswordLine(c.users[ks[0]])] + UserLines(ks[1..], c.users);
      assert lines[1..][1..] == UserLines(ks[1..], c.users);
      assert PrintLines(lines[1..]) == PasswordLine(c.users[ks[0]]) + ['\n'] + UsersText(ks[1..], c);
      assert PrintLines(lines) == UserLine(ks[0]) + ['\n'] + PrintLines(lines[1..]);
      TwoLines(ks[0], c.users[ks[0]], UsersText(ks[1..], c));
    }
  }

  /** `a` and `b` agree up to `n`, and there `a` is the smaller one. */
  predicate Differ(a: string, b: string, n: int) {
    0 <= n <= |a| && n < |b| && a[..n] == b[..n] && (n == |a| || a[n] < b[n])
  }

  /** The order of std::map: at the first difference the smaller character comes first, or the text that ends there. */
  lemma {:induction false} LessIff(a: string, b: string)
    ensures Less(a, b) <==> exists n :: Differ(a, b, n)
  {
    if a == "" || b == "" {
      if b != "" { assert Differ(a, b, 0); }
    } else if a[0] != b[0] {
      if a[0] < b[0] { assert Differ(a, b, 0); }
    } else {
      LessIff(a[1..], b[1..]);
      if n: nat :| Differ(a[1..], b[1..], n) {
        assert a[..n + 1] == [a[0]] + a[1..][..n] && b[..n + 1] == [b[0]] + b[1..][..n];
        assert Differ(a, b, n + 1);
      }
      if n: nat :| Differ(a, b, n) {
        assert n > 0;
        assert a[1..][..n - 1] == a[..n][1..] && b[1..][..n - 1] == b[..n][1..];
        assert Differ(a[1..], b[1..], n - 1);
      }
    }
  }
}
