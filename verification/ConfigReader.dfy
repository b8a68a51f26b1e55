/** src/ConfigReader.cpp: the reader object, its line loops, and its dumps. */
module ConfigReader {
  import opened Text
  import opened Words
  import opened Config
  import opened RoundTrip

  lemma PrintedSetting(t: string, v: string, more: seq<string>, out: string)
    ensures out + PrintLines([SettingLine(t, v)] + more) == out + (t + " = " + v + "\n") + PrintLines(more)
  {
  }

  lemma PrintedUser(u: string, p: string, more: seq<string>)
    ensures PrintLines([UserLine(u), PasswordLine(p)] + more)
      == ("login: \t" + u + "\n" + "password: " + p + "\n") + PrintLines(more)
  {
  }

  method Least(keys: set<string>) returns (least: string)
    requires keys != {}
    ensures least in keys && forall k :: k in keys && k != least ==> Less(least, k)
  {
    least :| least in keys;
    var left := keys - {least};
    while left != {}
      invariant left <= keys && least in keys
      invariant forall k :: k in keys - left && k != least ==> Less(least, k)
      decreases |left|
    {
      var k :| k in left;
      LessTotal(k, least);
      if Less(k, least) {
        forall x | x in keys - left && x != least ensures Less(k, x) { LessTransitive(k, least, x); }
        least := k;
      }
      left := left - {k};
    }
  }

  /** Iteration over a std::map: its keys in ascending order. */
  method InMapOrder(keys: set<string>) returns (ks: seq<string>)
    ensures InOrder(ks, keys)
  {
    ks := [];
    var left := keys;
    while left != {}
      invariant left <= keys && InOrder(ks, keys - left)
      invariant forall k, l :: k in ks && l in left ==> Less(k, l)
      decreases |left|
    {
      var k := Least(left);
      ks := ks + [k];
      left := left - {k};
    }
    assert keys - left == keys;
  }

  /** An input stream over a file's text. */
  class InputFile {
    var rest: string

    constructor (text: string)
      ensures rest == text
    {
      rest := text;
    }

    /** std::getline: false at the end of the file, otherwise the next line without its newline. */
    method GetLine() returns (ok: bool, line: string)
      modifies this
      ensures ok == (old(rest) != "")
      ensures !ok ==> rest == old(rest)
      ensures ok ==> Lines(old(rest)) == [line] + Lines(rest) && |rest| < |old(rest)|
    {
      if rest == "" { return false, ""; }
      var i := IndexOf(rest, '\n');
      ok, line := true, rest[..i];
      rest := if i == |rest| then "" else rest[i + 1..];
      assert i == |old(rest)| ==> line == old(rest);
    }
  }

  class ConfigReader {
    var settings: map<string, string>
    var users: map<string, string>

    /** Credentials are known exactly when the user is stored with that password. */
    method HasUser(tag: string, value: string) returns (known: bool)
      ensures known <==> tag in users && users[tag] == value
    {
      known := tag in users && users[tag] == value;
    }

    /** The two sides of a line: tag and value, cut at the delimiter with an `unsigned int` index, then reduced. */
    method Cut(data: string, delimiter: char) returns (tag: string, value: string)
      ensures tag == Reduced(Front(data, delimiter)) && value == Reduced(Back(data, delimiter))
    {
      var found := IndexOf(data, delimiter);
      var length := (if found < |data| then found else NPOS) % UINT_RANGE;
      assert length == Length(data, delimiter);
      tag, value := "", "";
      if length != NPOS {
        tag := if length <= |data| then data[..length] else data;
        var start := (length + 1) % UINT_RANGE;
        assert start <= |data|;
        value := data[start..];
      }
      assert tag == Front(data, delimiter) && value == Back(data, delimiter);
      tag := Reduce(tag);
      value := Reduce(value);
    }

    method SetPassword(name: string, data: string)
      modifies this
      ensures settings == old(settings) && users == WithPassword(name, data, old(users))
    {
      if data == "" { return; }
      var tag, password := Cut(data, ':');
      if tag == "" || password == "" { return; }
      if name in users { users := users - {name}; }
      users := users[name := password];
      assert users == old(users)[name := password];
    }

    /** The body of fillUsers' loop, once a line is read: true when the block ends with it. */
    method FillRound(line: string, input: InputFile) returns (ended: bool)
      modifies this, input
      ensures settings == old(settings) && |input.rest| <= |old(input.rest)|
      ensures Round(users, Lines(input.rest), ended) == UsersRound([line] + Lines(old(input.rest)), old(users))
    {
      ghost var rest := Lines(input.rest);
      assert ([line] + rest)[1..] == rest;
      var data := Data(line);
      if data == "" { return false; }
      if '}' in data { return true; }
      var tag, name := Cut(data, ':');
      if tag == "" || name == "" || tag != "login" { return false; }
      var more2, line2 := input.GetLine();
      if !more2 || '}' in line2 { return true; }
      assert rest[0] == line2 && rest[1..] == Lines(input.rest);
      ended := false;
      SetPassword(name, Data(line2));
    }

    /** fillUsers: reads on, from the same stream, to the end of the users block. */
    method FillUsers(input: InputFile) returns (ok: bool)
      modifies this, input
      ensures ok && settings == old(settings)
      ensures (users, Lines(input.rest)) == AfterUsers(Lines(old(input.rest)), old(users))
      ensures |input.rest| <= |old(input.rest)|
    {
      var work := true;
      while work
        invariant settings == old(settings) && |input.rest| <= |old(input.rest)|
        invariant (if work then AfterUsers(Lines(input.rest), users) else (users, Lines(input.rest)))
          == AfterUsers(Lines(old(input.rest)), old(users))
        decreases |input.rest|, work
      {
        var more, line := input.GetLine();
        if !more {
          work := false;
          continue;
        }
        var ended := FillRound(line, input);
        if ended { work := false; }
      }
      ok := true;
    }

    /** The body of parseFile's loop: comment cut off, then a users block, a setting, or nothing. */
    method ParseLine(line: string, input: InputFile)
      modifies this, input
      ensures (Config(settings, users), Lines(input.rest))
        == LineRound([line] + Lines(old(input.rest)), Config(old(settings), old(users)))
      ensures |input.rest| <= |old(input.rest)|
    {
      assert ([line] + Lines(input.rest))[1..] == Lines(input.rest);
      var data := Data(line);
      if data == "" { return; }
      if '{' in data {
        var _ := FillUsers(input);
        return;
      }
      var tag, value := Cut(data, '=');
      if tag == "" || value == "" { return; }
      if tag in settings { settings := settings - {tag}; }
      settings := settings[tag := value];
      assert settings == old(settings)[tag := value];
    }

    /** parseFile: false and no change when the file cannot be opened (None). */
    method ParseFile(file: Option<string>) returns (ok: bool)
      modifies this
      ensures ok == file.Some?
      ensures !ok ==> settings == old(settings) && users == old(users)
      ensures ok ==> Config(settings, users) == AfterLines(Lines(file.value), Config(old(settings), old(users)))
    {
      if file.None? { return false; }
      var input := new InputFile(file.value);
      var more, line := input.GetLine();
      while more
        invariant fresh(input)
        invariant !more ==> input.rest == ""
        invariant AfterLines((if more then [line] else []) + Lines(input.rest), Config(settings, users))
          == AfterLines(Lines(file.value), Config(old(settings), old(users)))
        decreases |input.rest|, more
      {
        ParseLine(line, input);
        more, line := input.GetLine();
      }
      ok := true;
    }

    constructor (file: Option<string>)
      ensures Config(settings, users) == if file.Some? then Parsed(file.value) else EMPTY
    {
      settings, users := map[], map[];
      new;
      var _ := ParseFile(file);
    }

    method DumpFileValues() returns (out: string)
      ensures exists ks :: InOrder(ks, settings.Keys) && out == PrintLines(SettingLines(ks, settings))
    {
      var ks := InMapOrder(settings.Keys);
      out := "";
      var i := 0;
      while i < |ks|
        invariant i <= |ks| && InOrder(ks, settings.Keys)
        invariant out + PrintLines(SettingLines(ks[i..], settings)) == PrintLines(SettingLines(ks, settings))
      {
        assert ks[i..][1..] == ks[i + 1..];
        PrintedSetting(ks[i], settings[ks[i]], SettingLines(ks[i..][1..], settings), out);
        out := out + (ks[i] + " = " + settings[ks[i]] + "\n");
        i := i + 1;
      }
    }

    method DumpUsersValues() returns (out: string)
      ensures exists ks :: InOrder(ks, users.Keys) && out == PrintLines(UserLines(ks, users))
    {
      var ks := InMapOrder(users.Keys);
      out := "";
      var i := 0;
      while i < |ks|
        invariant i <= |ks| && InOrder(ks, users.Keys)
        invariant out + PrintLines(UserLines(ks[i..], users)) == PrintLines(UserLines(ks, users))
      {
        var entry := "login: \t" + ks[i] + "\n" + "password: " + users[ks[i]] + "\n";
        PrintedUser(ks[i], users[ks[i]], UserLines(ks[i..][1..], users));
        assert ks[i..][1..] == ks[i + 1..];
        out := out + entry;
        i := i + 1;
      }
    }
  }
}
