/** The whitespace normaliser of src/ConfigReader.cpp (trim and reduce) against splitting into words. */
module Words {
  import opened Text

  predicate IsBlank(c: char) { c == ' ' || c == '\t' }

  predicate NotBlank(c: char) { !IsBlank(c) }

  predicate AllBlank(s: string) { forall i :: 0 <= i < |s| ==> IsBlank(s[i]) }

  predicate IsWord(s: string) { s != "" && forall i :: 0 <= i < |s| ==> NotBlank(s[i]) }

  /** The maximal runs of characters that are neither space nor tab, in order. */
  function WordsOf(s: string): seq<string>
    decreases |s|
  {
    var b := FindFirst(s, NotBlank, 0);
    if b == |s| then []
    else var e := FindFirst(s, IsBlank, b); [s[b..e]] + WordsOf(s[e..])
  }

  lemma {:induction false} WordsAreWords(s: string)
    ensures forall i :: 0 <= i < |WordsOf(s)| ==> IsWord(WordsOf(s)[i])
    decreases |s|
  {
    var b := FindFirst(s, NotBlank, 0);
    if b == |s| {
    } else {
      WordsAreWords(s[FindFirst(s, IsBlank, b)..]);
    }
  }

  /** What reduce returns: the words of `s`, one space between two of them. */
  function Reduced(s: string): string {
    Join(WordsOf(s), ' ')
  }

  lemma FindFirstIs(s: string, p: char -> bool, from: nat, i: nat)
    requires from <= i <= |s|
    requires i < |s| ==> p(s[i])
    requires forall k :: from <= k < i ==> !p(s[k])
    ensures FindFirst(s, p, from) == i
  {
  }

  /** One word, with blanks before it and a blank or the end behind it, is split off as the first word. */
  lemma WordsStep(blanks: string, w: string, rest: string)
    requires AllBlank(blanks) && IsWord(w) && (rest == "" || IsBlank(rest[0]))
    ensures WordsOf(blanks + w + rest) == [w] + WordsOf(rest)
  {
    var s := blanks + w + rest;
    var b, e := |blanks|, |blanks| + |w|;
    assert forall k :: 0 <= k < b ==> s[k] == blanks[k];
    assert forall k :: b <= k < e ==> s[k] == w[k - b];
    FindFirstIs(s, NotBlank, 0, b);
    FindFirstIs(s, IsBlank, b, e);
    assert s[b..e] == w && s[e..] == rest;
  }

  lemma WordThen(w: string, rest: string)
    requires IsWord(w) && (rest == "" || IsBlank(rest[0]))
    ensures WordsOf(w + rest) == [w] + WordsOf(rest)
  {
    var s := w + rest;
    assert forall k :: 0 <= k < |w| ==> s[k] == w[k];
    FindFirstIs(s, NotBlank, 0, 0);
    FindFirstIs(s, IsBlank, 0, |w|);
    assert s[0..|w|] == w && s[|w|..] == rest;
  }

  lemma NoWords(s: string)
    requires AllBlank(s)
    ensures WordsOf(s) == []
  {
  }

  /** Every text is blanks alone, or blanks, a word, and a rest that is empty or starts with a blank. */
  lemma FirstWord(s: string) returns (blanks: string, w: string, rest: string)
    requires !AllBlank(s)
    ensures s == blanks + w + rest && AllBlank(blanks) && IsWord(w) && (rest == "" || IsBlank(rest[0]))
    ensures |rest| < |s|
  {
    var b := FindFirst(s, NotBlank, 0);
    var e := FindFirst(s, IsBlank, b);
    blanks, w, rest := s[..b], s[b..e], s[e..];
  }

  lemma BlanksTogether(a: string, b: string)
    requires AllBlank(a) && AllBlank(b)
    ensures AllBlank(a + b)
  {
  }

  lemma Regrouped(a: string, b: string, c: string, d: string)
    ensures a + (b + c + d) == (a + b) + c + d
  {
  }

  lemma BlanksBefore(blanks: string, more: string, w: string, rest: string)
    requires AllBlank(blanks) && AllBlank(more) && IsWord(w) && (rest == "" || IsBlank(rest[0]))
    ensures WordsOf(blanks + (more + w + rest)) == [w] + WordsOf(rest)
  {
    BlanksTogether(blanks, more);
    Regrouped(blanks, more, w, rest);
    WordsStep(blanks + more, w, rest);
  }

  lemma LeadingBlanks(blanks: string, s: string)
    requires AllBlank(blanks)
    ensures WordsOf(blanks + s) == WordsOf(s)
  {
    if AllBlank(s) {
      NoWords(s);
      NoWords(blanks + s);
    } else {
      var b, w, rest := FirstWord(s);
      WordsStep(b, w, rest);
      BlanksBefore(blanks, b, w, rest);
    }
  }

  lemma {:induction false} TrailingBlanks(s: string, blanks: string)
    requires AllBlank(blanks)
    ensures WordsOf(s + blanks) == WordsOf(s)
    decreases |s|
  {
    if AllBlank(s) {
      NoWords(s);
      NoWords(s + blanks);
    } else {
      var b, w, rest := FirstWord(s);
      WordsStep(b, w, rest);
      assert s + blanks == b + w + (rest + blanks);
      WordsStep(b, w, rest + blanks);
      TrailingBlanks(rest, blanks);
    }
  }

  lemma {:induction false} WordsOfJoin(ws: seq<string>)
    requires forall i :: 0 <= i < |ws| ==> IsWord(ws[i])
    ensures WordsOf(Join(ws, ' ')) == ws
  {
    if ws == [] {
    } else if |ws| == 1 {
      assert ws[0] + "" == ws[0];
      WordThen(ws[0], "");
    } else {
      var tail := Join(ws[1..], ' ');
      assert Join(ws, ' ') == ws[0] + ([' '] + tail);
      WordThen(ws[0], [' '] + tail);
      LeadingBlanks([' '], tail);
      WordsOfJoin(ws[1..]);
    }
  }

  /** reduce computes a canonical form: idempotent, and equal on two texts exactly when their words are equal. */
  lemma ReducedIdempotent(s: string)
    ensures WordsOf(Reduced(s)) == WordsOf(s)
    ensures Reduced(Reduced(s)) == Reduced(s)
  {
    WordsAreWords(s);
    WordsOfJoin(WordsOf(s));
  }

  lemma ReducedEqualIff(s: string, t: string)
    ensures Reduced(s) == Reduced(t) <==> WordsOf(s) == WordsOf(t)
  {
    ReducedIdempotent(s);
    ReducedIdempotent(t);
  }

  /** Blanks of a canonical text: single spaces, never at an end. */
  predicate Canonical(s: string) {
    forall i :: 0 <= i < |s| && IsBlank(s[i]) ==> s[i] == ' ' && 0 < i < |s| - 1 && NotBlank(s[i + 1])
  }

  lemma {:induction false} JoinIsCanonical(ws: seq<string>)
    requires forall i :: 0 <= i < |ws| ==> IsWord(ws[i])
    ensures Canonical(Join(ws, ' '))
    ensures ws != [] ==> Join(ws, ' ') != "" && NotBlank(Join(ws, ' ')[0])
  {
    if ws == [] {
    } else if |ws| == 1 {
      assert IsWord(ws[0]);
    } else {
      JoinIsCanonical(ws[1..]);
      var tail := Join(ws[1..], ' ');
      var s := ws[0] + [' '] + tail;
      var n := |ws[0]|;
      assert forall i :: 0 <= i < n ==> s[i] == ws[0][i];
      assert forall i :: n < i < |s| ==> s[i] == tail[i - n - 1];
      forall i | 0 <= i < |s| && IsBlank(s[i]) ensures s[i] == ' ' && 0 < i < |s| - 1 && NotBlank(s[i + 1]) {
        if i > n {
          assert IsBlank(tail[i - n - 1]);
          assert s[i + 1] == tail[i - n];
        }
      }
    }
  }

  lemma CanonicalTail(w: string, tail: string)
    requires Canonical(w + [' '] + tail)
    ensures Canonical(tail) && tail != "" && NotBlank(tail[0])
  {
    var s, n := w + [' '] + tail, |w|;
    assert IsBlank(s[n]);
    assert forall i :: 0 <= i < |tail| ==> tail[i] == s[n + 1 + i];
    forall i | 0 <= i < |tail| && IsBlank(tail[i])
      ensures tail[i] == ' ' && 0 < i < |tail| - 1 && NotBlank(tail[i + 1])
    {
      assert IsBlank(s[n + 1 + i]);
    }
  }

  lemma CanonicalStart(s: string)
    requires Canonical(s)
    ensures AllBlank(s) ==> s == ""
    ensures s != "" ==> NotBlank(s[0])
  {
    if s != "" && IsBlank(s[0]) { assert false; }
  }

  lemma JoinCons(w: string, ws: seq<string>, tail: string)
    requires Join(ws, ' ') == tail && tail != ""
    ensures Join([w] + ws, ' ') == w + [' '] + tail
  {
  }

  lemma ReduceEnd(rest: string)
    requires IsWord(rest)
    ensures Reduced(rest) == rest
  {
    assert rest + "" == rest;
    WordThen(rest, "");
    NoWords("");
  }

  /** A canonical text is one word, or a word, a space and a canonical text. */
  lemma CanonicalSplit(s: string) returns (w: string, tail: string)
    requires Canonical(s) && s != ""
    ensures IsWord(w) && (s == w || (s == w + [' '] + tail && Canonical(tail) && tail != ""))
  {
    CanonicalStart(s);
    var e := FindFirst(s, IsBlank, 0);
    w, tail := s[..e], "";
    if e < |s| {
      tail := s[e + 1..];
      assert s == w + [' '] + tail;
      CanonicalTail(w, tail);
    }
  }

  lemma {:induction false} CanonicalIsJoin(s: string)
    requires Canonical(s)
    ensures Reduced(s) == s
    decreases |s|
  {
    if s == "" {
      NoWords(s);
    } else {
      var w, tail := CanonicalSplit(s);
      if s == w {
        ReduceEnd(s);
      } else {
        CanonicalIsJoin(tail);
        LeadingBlanks([' '], tail);
        assert s == w + ([' '] + tail);
        WordThen(w, [' '] + tail);
        JoinCons(w, WordsOf(tail), tail);
      }
    }
  }

  /** The canonical texts are exactly the ones reduce leaves alone. */
  lemma ReducedFixesCanonical(s: string)
    ensures Canonical(Reduced(s))
    ensures Reduced(s) == s <==> Canonical(s)
  {
    WordsAreWords(s);
    JoinIsCanonical(WordsOf(s));
    if Canonical(s) { CanonicalIsJoin(s); }
  }

  // ---- What reduce does to a text, character by character ----

  lemma WordInFront(blanks: string, w: string, rest: string, x: char, b: string)
    requires AllBlank(blanks) && IsWord(w) && (rest == "" || IsBlank(rest[0])) && IsBlank(x)
    ensures WordsOf(blanks + w + rest + [x] + b) == [w] + WordsOf(rest + [x] + b)
  {
    assert blanks + w + rest + [x] + b == blanks + w + (rest + [x] + b);
    assert (rest + [x] + b)[0] == if rest == "" then x else rest[0];
    WordsStep(blanks, w, rest + [x] + b);
  }

  lemma {:induction false} WordsOfParts(a: string, x: char, b: string)
    requires IsBlank(x)
    ensures WordsOf(a + [x] + b) == WordsOf(a) + WordsOf(b)
    decreases |a|
  {
    LeadingBlanks([x], b);
    if AllBlank(a) {
      NoWords(a);
      assert a + [x] + b == (a + [x]) + b;
      LeadingBlanks(a + [x], b);
    } else {
      var blanks, w, rest := FirstWord(a);
      WordsOfParts(rest, x, b);
      WordsStep(blanks, w, rest);
      WordInFront(blanks, w, rest, x, b);
    }
  }

  lemma {:induction false} JoinParts(a: seq<string>, b: seq<string>)
    requires a != [] && b != []
    ensures Join(a + b, ' ') == Join(a, ' ') + " " + Join(b, ' ')
  {
    if |a| == 1 {
      assert (a + b)[1..] == b;
    } else {
      assert (a + b)[1..] == a[1..] + b;
      JoinParts(a[1..], b);
    }
  }

  lemma ReducedEmptyIff(s: string)
    ensures Reduced(s) == "" <==> WordsOf(s) == []
  {
    WordsAreWords(s);
    JoinIsCanonical(WordsOf(s));
  }

  /** A text without spaces and tabs is left alone. Where there is one, what stands on its two sides is reduced, and put
      together with one space if something is left of both. There is nothing else to a text, so this is all of reduce.
      */
  lemma ReducedLaws(a: string, x: char, b: string)
    requires x == ' ' || x == '\t'
    ensures ' ' !in a && '\t' !in a ==> Reduced(a) == a
    ensures Reduced(a + [x] + b)
      == if Reduced(a) == "" then Reduced(b) else if Reduced(b) == "" then Reduced(a) else Reduced(a) + " " + Reduced(b)
  {
    if ' ' !in a && '\t' !in a {
      if a == "" { NoWords(a); } else { ReduceEnd(a); }
    }
    WordsOfParts(a, x, b);
    ReducedEmptyIff(a);
    ReducedEmptyIff(b);
    if WordsOf(a) != [] && WordsOf(b) != [] { JoinParts(WordsOf(a), WordsOf(b)); }
    assert [] + WordsOf(b) == WordsOf(b) && WordsOf(a) + [] == WordsOf(a);
  }

  lemma {:induction false} CharsOfReduced(s: string, c: char)
    requires c in Reduced(s)
    ensures c == ' ' || c in s
    decreases |s|
  {
    if AllBlank(s) {
      NoWords(s);
    } else {
      var b, w, rest := FirstWord(s);
      WordsStep(b, w, rest);
      assert forall x :: x in w || x in rest ==> x in s;
      assert WordsOf(s)[1..] == WordsOf(rest);
      if WordsOf(rest) != [] && c != ' ' && c !in w {
        assert c in Reduced(rest);
        CharsOfReduced(rest, c);
      }
    }
  }

  lemma {:induction false} LengthOfReduced(s: string)
    ensures |Reduced(s)| <= |s|
    decreases |s|
  {
    if AllBlank(s) {
      NoWords(s);
    } else {
      var b, w, rest := FirstWord(s);
      WordsStep(b, w, rest);
      assert WordsOf(s)[1..] == WordsOf(rest);
      if rest != "" {
        var tail := rest[1..];
        assert rest == [rest[0]] + tail;
        LeadingBlanks([rest[0]], tail);
        LengthOfReduced(tail);
      } else {
        NoWords(rest);
      }
    }
  }

  /** The index behind the last character that is no blank; 0 when there is none. */
  function EndOfLast(s: string): (e: nat)
    ensures e <= |s|
    ensures forall k :: e <= k < |s| ==> IsBlank(s[k])
    ensures e > 0 ==> NotBlank(s[e - 1])
  {
    if s == "" then 0
    else if NotBlank(s[|s| - 1]) then |s|
    else EndOfLast(s[..|s| - 1])
  }

  predicate CutAt(s: string, from: nat, to: nat, r: string) {
    from <= to <= |s| && AllBlank(s[..from]) && r == s[from..to] && AllBlank(s[to..])
  }

  lemma ThreeParts(s: string, from: nat, to: nat)
    requires from <= to <= |s|
    ensures s == s[..from] + (s[from..to] + s[to..])
  {
  }

  lemma TrimKeepsWords(s: string, from: nat, to: nat)
    requires from <= to <= |s| && AllBlank(s[..from]) && AllBlank(s[to..])
    ensures WordsOf(s[from..to]) == WordsOf(s)
  {
    ThreeParts(s, from, to);
    LeadingBlanks(s[..from], s[from..to] + s[to..]);
    TrailingBlanks(s[from..to], s[to..]);
  }

  /** trim takes off blanks at both ends, and all there are: it keeps the words and leaves no blank at either end. */
  function Trim(s: string): (r: string)
    ensures exists from, to :: CutAt(s, from, to, r)
    ensures WordsOf(r) == WordsOf(s)
    ensures r != "" ==> NotBlank(r[0]) && NotBlank(r[|r| - 1])
  {
    var strBegin := FindFirst(s, NotBlank, 0);
    if strBegin == |s| then
      NoWords(s); NoWords("");
      assert CutAt(s, |s|, |s|, "");
      ""
    else
      var strEnd := EndOfLast(s);
      var r := s[strBegin..strEnd];
      TrimKeepsWords(s, strBegin, strEnd);
      assert CutAt(s, strBegin, strEnd, r);
      r
  }

  predicate HasBlankEnds(s: string) { s == "" || IsBlank(s[0]) || IsBlank(s[|s| - 1]) }

  lemma WordAt(s: string, b: nat)
    requires 0 < b < |s| && IsBlank(s[b])
    requires forall k :: 0 <= k < b ==> NotBlank(s[k])
    ensures WordsOf(s) == [s[..b]] + WordsOf(s[b..])
  {
    FindFirstIs(s, NotBlank, 0, 0);
    FindFirstIs(s, IsBlank, 0, b);
  }

  lemma SkipBlanks(s: string, b: nat, e: nat)
    requires b <= e <= |s|
    requires forall k :: b <= k < e ==> IsBlank(s[k])
    ensures WordsOf(s[b..]) == WordsOf(s[e..])
  {
    LeadingBlanks(s[b..e], s[e..]);
    assert s[b..] == s[b..e] + s[e..];
  }

  lemma TakeWord(s: string, b: nat, e: nat)
    requires 0 < b < e < |s|
    requires forall k :: 0 <= k < b ==> NotBlank(s[k])
    requires forall k :: b <= k < e ==> IsBlank(s[k])
    ensures WordsOf(s) == [s[..b]] + WordsOf(s[e..])
  {
    WordAt(s, b);
    SkipBlanks(s, b, e);
  }

  lemma NonEmptyWords(s: string)
    requires s != "" && NotBlank(s[0])
    ensures WordsOf(s) != []
  {
  }

  /** One replacement, seen from the word it follows: the word, one space, and the rest reduced. */
  lemma ReduceRound(rest: string, b: nat, e: nat)
    requires 0 < b < e < |rest| && NotBlank(rest[e])
    requires forall k :: 0 <= k < b ==> NotBlank(rest[k])
    requires forall k :: b <= k < e ==> IsBlank(rest[k])
    ensures Reduced(rest) == rest[..b] + " " + Reduced(rest[e..])
  {
    var w, more := rest[..b], rest[e..];
    TakeWord(rest, b, e);
    NonEmptyWords(more);
    assert ([w] + WordsOf(more))[1..] == WordsOf(more);
  }

  /** What holds between two rounds: the text is `front` and `rest`; reducing `rest` alone would complete it. */
  ghost predicate Progress(result: string, front: string, rest: string, target: string) {
    result == front + rest && !HasBlankEnds(rest) && front + Reduced(rest) == target
  }

  lemma RunBounds(result: string, front: string, rest: string, begin: nat, end: nat)
    requires result == front + rest && !HasBlankEnds(rest)
    requires IsFirst(result, IsBlank, |front|, begin) && begin < |result| && IsFirst(result, NotBlank, begin, end)
    ensures var b, e := begin - |front|, end - |front|;
      && 0 < b < e < |rest| && NotBlank(rest[e])
      && (forall k :: 0 <= k < b ==> NotBlank(rest[k])) && (forall k :: b <= k < e ==> IsBlank(rest[k]))
      && result[end..] == rest[e..] && result[..begin] == front + rest[..b] && !HasBlankEnds(rest[e..])
  {
    assert forall k :: 0 <= k < |rest| ==> rest[k] == result[k + |front|];
  }

  lemma Associate(front: string, w: string, tail: string)
    ensures front + (w + " " + tail) == front + w + " " + tail
  {
  }

  lemma RoundKeeps(result: string, front: string, rest: string, target: string, begin: nat, end: nat)
    requires Progress(result, front, rest, target)
    requires IsFirst(result, IsBlank, |front|, begin) && begin < |result| && IsFirst(result, NotBlank, begin, end)
    ensures end < |result|
    ensures Progress(result[..begin] + " " + result[end..], result[..begin] + " ", result[end..], target)
  {
    RunBounds(result, front, rest, begin, end);
    var b, e := begin - |front|, end - |front|;
    ReduceRound(rest, b, e);
    Associate(front, rest[..b], Reduced(rest[e..]));
  }

  /** reduce: every run of blanks inside the trimmed text is replaced, in place, by one space. */
  method Reduce(str: string) returns (result: string)
    ensures result == Reduced(str)
  {
    result := Trim(str);
    if result == "" {
      NoWords("");
      return;
    }
    ghost var front, rest := "", result;
    assert "" + Reduced(result) == Reduced(str);
    var beginSpace: nat := FindFirst(result, IsBlank, 0);
    while beginSpace != |result|
      invariant Progress(result, front, rest, Reduced(str))
      invariant IsFirst(result, IsBlank, |front|, beginSpace)
      decreases |rest|
    {
      var endSpace := FindFirst(result, NotBlank, beginSpace);
      RoundKeeps(result, front, rest, Reduced(str), beginSpace, endSpace);
      front, rest := result[..beginSpace] + " ", result[endSpace..];
      result := result[..beginSpace] + " " + result[endSpace..];
      var newStart := beginSpace + |" "|;
      beginSpace := FindFirst(result, IsBlank, newStart);
    }
    assert forall k :: 0 <= k < |rest| ==> rest[k] == result[k + |front|];
    ReduceEnd(rest);
  }
}
