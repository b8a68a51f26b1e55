/** Address text, as src/string_utils.h builds it, against readers of dotted decimal and of RFC 4291 section 2.2. */
module IpText {
  import opened Text

  type Byte = n: int | 0 <= n < 256

  /** string_utils::to_string: one character a byte. */
  function ToText(bytes: seq<Byte>): (s: string)
    ensures |s| == |bytes| && forall i :: 0 <= i < |bytes| ==> s[i] as int == bytes[i]
  {
    seq(|bytes|, i requires 0 <= i < |bytes| => bytes[i] as char)
  }

  lemma ToTextInjective(a: seq<Byte>, b: seq<Byte>)
    requires ToText(a) == ToText(b)
    ensures a == b
  {
    assert forall i :: 0 <= i < |a| ==> ToText(a)[i] as int == a[i] && ToText(b)[i] as int == b[i];
  }

  // ---- IPv4 ----

  function Octets(bytes: seq<Byte>): (parts: seq<string>)
    ensures |parts| == |bytes|
  {
    if bytes == [] then [] else Octets(bytes[..|bytes| - 1]) + [Numeral(bytes[|bytes| - 1], Decimal)]
  }

  function IPv4Text(bytes: seq<Byte>): string
    requires |bytes| == 4
  {
    Join(Octets(bytes), '.')
  }

  predicate IsOctet(s: string) {
    |s| > 0 && AllDigits(s, Decimal) && NumeralValue(s, Decimal) < 256
  }

  function OctetsValue(parts: seq<string>): Option<seq<Byte>> {
    if parts == [] then Some([])
    else
      var front := OctetsValue(parts[..|parts| - 1]);
      var last := parts[|parts| - 1];
      if front.Some? && IsOctet(last) then Some(front.value + [NumeralValue(last, Decimal)]) else None
  }

  /** Reads dotted decimal. */
  function ParseIPv4(s: string): Option<seq<Byte>> {
    var parts := Split(s, '.');
    if |parts| == 4 then OctetsValue(parts) else None
  }

  lemma OctetText(b: Byte)
    ensures '.' !in Numeral(b, Decimal) && IsOctet(Numeral(b, Decimal))
    ensures NumeralValue(Numeral(b, Decimal), Decimal) == b
  {
    NumeralRoundTrip(b, Decimal);
    assert !IsDigit('.', Decimal);
  }

  lemma {:induction false} OctetsRoundTrip(bytes: seq<Byte>)
    ensures OctetsValue(Octets(bytes)) == Some(bytes)
    ensures forall i :: 0 <= i < |bytes| ==> '.' !in Octets(bytes)[i]
  {
    if bytes == [] {
    } else {
      var parts := Octets(bytes);
      OctetsRoundTrip(bytes[..|bytes| - 1]);
      OctetText(bytes[|bytes| - 1]);
      assert parts[..|parts| - 1] == Octets(bytes[..|bytes| - 1]);
      assert bytes[..|bytes| - 1] + [bytes[|bytes| - 1]] == bytes;
    }
  }

  /** The text of four bytes is read back as those bytes, so it is the address on the wire that gets resolved. */
  lemma IPv4RoundTrip(bytes: seq<Byte>)
    requires |bytes| == 4
    ensures ParseIPv4(IPv4Text(bytes)) == Some(bytes)
  {
    OctetsRoundTrip(bytes);
    SplitJoin(Octets(bytes), '.');
  }

  /** Dotted decimal: the bytes in the order of the wire, a dot between two of them. */
  lemma IPv4Notation(a: Byte, b: Byte, c: Byte, d: Byte)
    ensures IPv4Text([a, b, c, d])
      == Numeral(a, Decimal) + "." + Numeral(b, Decimal) + "." + Numeral(c, Decimal) + "." + Numeral(d, Decimal)
  {
    var bytes := [a, b, c, d];
    var t, u, v, w := Numeral(a, Decimal), Numeral(b, Decimal), Numeral(c, Decimal), Numeral(d, Decimal);
    assert bytes[..3] == [a, b, c] && [a, b, c][..2] == [a, b] && [a, b][..1] == [a] && [a][..0] == [];
    assert Octets([a, b]) == [t, u] && Octets(bytes[..3]) == [t, u, v] && Octets(bytes) == [t, u, v, w];
    JoinSnoc([t], u, '.');
    JoinSnoc([t, u], v, '.');
    JoinSnoc([t, u, v], w, '.');
    assert [t, u, v] + [w] == [t, u, v, w] && [t, u] + [v] == [t, u, v] && [t] + [u] == [t, u];
  }

  // ---- IPv6 ----

  /** The text written for one pair of bytes: neither byte is padded to two digits. */
  function PairText(hi: Byte, lo: Byte): string {
    Numeral(hi, Hex) + Numeral(lo, Hex)
  }

  function Groups(bytes: seq<Byte>): (parts: seq<string>)
    ensures |parts| == |bytes| / 2
  {
    if |bytes| < 2 then []
    else
      var k := |bytes| - 2;
      Groups(bytes[..k]) + [PairText(bytes[k], bytes[k + 1])]
  }

  function IPv6Text(bytes: seq<Byte>): string
    requires |bytes| == 16
  {
    Join(Groups(bytes), ':')
  }

  predicate IsGroup(s: string) {
    1 <= |s| <= 4 && AllDigits(s, Hex) && NumeralValue(s, Hex) < 65536
  }

  function GroupsValue(parts: seq<string>): Option<seq<Byte>> {
    if parts == [] then Some([])
    else
      var front := GroupsValue(parts[..|parts| - 1]);
      var last := parts[|parts| - 1];
      if front.Some? && IsGroup(last) then
        Some(front.value + [NumeralValue(last, Hex) / 256, NumeralValue(last, Hex) % 256])
      else None
  }

  /** Reads the full form x:x:x:x:x:x:x:x of RFC 4291 section 2.2 into 16 bytes. */
  function ParseIPv6(s: string): Option<seq<Byte>> {
    var parts := Split(s, ':');
    if |parts| == 8 then GroupsValue(parts) else None
  }

  /** What a reader makes of a pair's text: the high byte is worth 16 or 256, by the low byte's digits. */
  function PairValue(hi: Byte, lo: Byte): nat {
    if lo < 16 then hi * 16 + lo else hi * 256 + lo
  }

  lemma PairTextValue(hi: Byte, lo: Byte)
    ensures IsGroup(PairText(hi, lo)) && ':' !in PairText(hi, lo)
    ensures NumeralValue(PairText(hi, lo), Hex) == PairValue(hi, lo)
  {
    var a := Numeral(hi, Hex);
    NumeralRoundTrip(hi, Hex);
    if lo < 16 {
      ValueSnoc(a, lo, Hex);
    } else {
      ValueSnoc(a, lo / 16, Hex);
      ValueSnoc(a + [DIGITS[lo / 16]], lo % 16, Hex);
      assert Numeral(lo, Hex) == [DIGITS[lo / 16]] + [DIGITS[lo % 16]];
      assert PairText(hi, lo) == a + [DIGITS[lo / 16]] + [DIGITS[lo % 16]];
    }
    assert !IsDigit(':', Hex);
  }

  /** A pair survives printing: either the high byte is zero or the low byte has two digits. */
  predicate PairSurvives(hi: Byte, lo: Byte) {
    hi == 0 || lo >= 16
  }

  predicate Survives(bytes: seq<Byte>) {
    forall k :: 0 <= k < |bytes| - 1 && k % 2 == 0 ==> PairSurvives(bytes[k], bytes[k + 1])
  }

  lemma SurvivesSplits(bytes: seq<Byte>)
    requires |bytes| >= 2 && |bytes| % 2 == 0
    ensures var k := |bytes| - 2; Survives(bytes) <==> Survives(bytes[..k]) && PairSurvives(bytes[k], bytes[k + 1])
  {
  }

  lemma PairSplits(hi: Byte, lo: Byte)
    ensures PairValue(hi, lo) < 65536
    ensures PairValue(hi, lo) / 256 == hi && PairValue(hi, lo) % 256 == lo <==> PairSurvives(hi, lo)
  {
  }

  /** The bytes a reader gets, pair by pair. */
  function Reread(bytes: seq<Byte>): (r: seq<Byte>)
    requires |bytes| % 2 == 0
    ensures |r| == |bytes|
  {
    if bytes == [] then []
    else
      var k := |bytes| - 2;
      var v := PairValue(bytes[k], bytes[k + 1]);
      Reread(bytes[..k]) + [v / 256, v % 256]
  }

  lemma {:induction false} GroupsReread(bytes: seq<Byte>)
    requires |bytes| % 2 == 0
    ensures GroupsValue(Groups(bytes)) == Some(Reread(bytes))
    ensures forall i :: 0 <= i < |bytes| / 2 ==> ':' !in Groups(bytes)[i]
  {
    if bytes == [] {
    } else {
      var k := |bytes| - 2;
      var parts := Groups(bytes);
      GroupsReread(bytes[..k]);
      PairTextValue(bytes[k], bytes[k + 1]);
      assert parts[..|parts| - 1] == Groups(bytes[..k]);
    }
  }

  lemma {:induction false} RereadIff(bytes: seq<Byte>)
    requires |bytes| % 2 == 0
    ensures Reread(bytes) == bytes <==> Survives(bytes)
  {
    if bytes == [] {
    } else {
      var k := |bytes| - 2;
      var back := Reread(bytes);
      RereadIff(bytes[..k]);
      PairSplits(bytes[k], bytes[k + 1]);
      SurvivesSplits(bytes);
      assert back[..k] == Reread(bytes[..k]);
      assert back == back[..k] + [back[k], back[k + 1]] && bytes == bytes[..k] + [bytes[k], bytes[k + 1]];
    }
  }

  /** The text is always a well-formed IPv6 address, and it is the address printed exactly when every pair survives. */
  lemma IPv6RoundTripIff(bytes: seq<Byte>)
    requires |bytes| == 16
    ensures ParseIPv6(IPv6Text(bytes)).Some?
    ensures ParseIPv6(IPv6Text(bytes)) == Some(bytes) <==> Survives(bytes)
  {
    GroupsReread(bytes);
    RereadIff(bytes);
    SplitJoin(Groups(bytes), ':');
  }

  /** On the addresses that survive, two different addresses never share a text. */
  lemma IPv6InjectiveOnSurvivors(a: seq<Byte>, b: seq<Byte>)
    requires |a| == 16 && |b| == 16 && Survives(a) && Survives(b) && IPv6Text(a) == IPv6Text(b)
    ensures a == b
  {
    IPv6RoundTripIff(a);
    IPv6RoundTripIff(b);
  }

  lemma {:induction false} GroupsOfUpdate(bytes: seq<Byte>, other: seq<Byte>)
    requires |bytes| == |other| && |bytes| % 2 == 0
    requires forall k :: 0 <= k < |bytes| - 1 && k % 2 == 0 ==>
      PairText(bytes[k], bytes[k + 1]) == PairText(other[k], other[k + 1])
    ensures Groups(bytes) == Groups(other)
  {
    if bytes == [] {
    } else {
      var n := |bytes| - 2;
      forall k | 0 <= k < n - 1 && k % 2 == 0
        ensures PairText(bytes[..n][k], bytes[..n][k + 1]) == PairText(other[..n][k], other[..n][k + 1])
      {
        assert PairText(bytes[k], bytes[k + 1]) == PairText(other[k], other[k + 1]);
      }
      GroupsOfUpdate(bytes[..n], other[..n]);
    }
  }

  // ---- Addresses that share a text ----

  /** The number of digits of a byte. */
  function Width(b: Byte): nat { if b < 16 then 1 else 2 }

  lemma PairLength(hi: Byte, lo: Byte)
    ensures |PairText(hi, lo)| == Width(hi) + Width(lo)
  {
    assert hi >= 16 ==> |Numeral(hi / 16, Hex)| == 1;
    assert lo >= 16 ==> |Numeral(lo / 16, Hex)| == 1;
  }

  /** Three digits that can be cut after the first and after the second one. */
  predicate Ambiguous(hi: Byte, lo: Byte) {
    if lo < 16 then hi >= 16 && hi % 16 != 0 else 1 <= hi < 16
  }

  /** The pair they give when they are cut at the other place. */
  function Twin(hi: Byte, lo: Byte): (t: (Byte, Byte))
    requires Ambiguous(hi, lo)
    ensures t != (hi, lo) && Ambiguous(t.0, t.1)
  {
    if lo < 16 then (hi / 16, hi % 16 * 16 + lo) else (hi * 16 + lo / 16, lo % 16)
  }

  predicate SamePair(h1: Byte, l1: Byte, h2: Byte, l2: Byte) {
    (h1, l1) == (h2, l2) || (Ambiguous(h1, l1) && Twin(h1, l1) == (h2, l2))
  }

  lemma TwinText(hi: Byte, lo: Byte)
    requires Ambiguous(hi, lo) && lo < 16
    ensures PairText(Twin(hi, lo).0, Twin(hi, lo).1) == PairText(hi, lo)
  {
    var m := hi % 16 * 16 + lo;
    assert m / 16 == hi % 16 && m % 16 == lo && m >= 16;
    assert Numeral(hi, Hex) == [DIGITS[hi / 16]] + [DIGITS[hi % 16]];
    assert Numeral(m, Hex) == [DIGITS[m / 16]] + [DIGITS[m % 16]];
  }

  lemma TwinTwice(hi: Byte, lo: Byte)
    requires Ambiguous(hi, lo)
    ensures Twin(Twin(hi, lo).0, Twin(hi, lo).1) == (hi, lo)
  {
  }

  /** As many digits with the same value: the same cut, or the other one. */
  lemma SameValue(h1: Byte, l1: Byte, h2: Byte, l2: Byte)
    requires Width(h1) + Width(l1) == Width(h2) + Width(l2) && PairValue(h1, l1) == PairValue(h2, l2)
    ensures SamePair(h1, l1, h2, l2)
  {
    if Width(l1) == Width(l2) {
      assert h1 == h2 && l1 == l2;
    } else if l1 < 16 {
      assert h1 * 16 + l1 == h2 * 256 + l2;
    } else {
      assert h1 * 256 + l1 == h2 * 16 + l2;
    }
  }

  lemma TwinTexts(h1: Byte, l1: Byte, h2: Byte, l2: Byte)
    requires SamePair(h1, l1, h2, l2)
    ensures PairText(h1, l1) == PairText(h2, l2)
  {
    if (h1, l1) != (h2, l2) {
      TwinTwice(h1, l1);
      if l1 < 16 { TwinText(h1, l1); } else { TwinText(h2, l2); }
    }
  }

  /** Two pairs are printed alike exactly when they are the same or each other's twins. */
  lemma PairTextIff(h1: Byte, l1: Byte, h2: Byte, l2: Byte)
    ensures PairText(h1, l1) == PairText(h2, l2) <==> SamePair(h1, l1, h2, l2)
  {
    if PairText(h1, l1) == PairText(h2, l2) {
      PairLength(h1, l1);
      PairLength(h2, l2);
      PairTextValue(h1, l1);
      PairTextValue(h2, l2);
      SameValue(h1, l1, h2, l2);
    }
    if SamePair(h1, l1, h2, l2) { TwinTexts(h1, l1, h2, l2); }
  }

  lemma {:induction false} GroupAt(bytes: seq<Byte>, k: nat)
    requires k % 2 == 0 && k + 1 < |bytes| && |bytes| % 2 == 0
    ensures Groups(bytes)[k / 2] == PairText(bytes[k], bytes[k + 1])
  {
    var n := |bytes| - 2;
    if k == n {
    } else {
      GroupAt(bytes[..n], k);
    }
  }


  /** Eight groups with a colon between two; each group is the two numbers of a pair, in the order of the wire,
      unpadded. */
  predicate EightGroups(text: string, bytes: seq<Byte>)
    requires |bytes| == 16
  {
    var groups := Split(text, ':');
    |groups| == 8
    && forall i :: 0 <= i < 8 ==> groups[i] == Numeral(bytes[2 * i], Hex) + Numeral(bytes[2 * i + 1], Hex)
  }

  lemma GroupOfPair(bytes: seq<Byte>, i: nat)
    requires |bytes| == 16 && i < 8
    ensures Groups(bytes)[i] == Numeral(bytes[2 * i], Hex) + Numeral(bytes[2 * i + 1], Hex)
  {
    GroupAt(bytes, 2 * i);
    assert (2 * i) / 2 == i;
  }

  lemma NoColons(bytes: seq<Byte>)
    requires |bytes| == 16
    ensures |Groups(bytes)| == 8 && forall i :: 0 <= i < |Groups(bytes)| ==> ':' !in Groups(bytes)[i]
  {
    GroupsReread(bytes);
  }

  lemma SplitGroups(bytes: seq<Byte>)
    requires |bytes| == 16
    ensures Split(IPv6Text(bytes), ':') == Groups(bytes)
  {
    NoColons(bytes);
    SplitJoin(Groups(bytes), ':');
  }

  lemma IPv6Notation(bytes: seq<Byte>)
    requires |bytes| == 16
    ensures EightGroups(IPv6Text(bytes), bytes)
  {
    SplitGroups(bytes);
    forall i | 0 <= i < 8 ensures Groups(bytes)[i] == Numeral(bytes[2 * i], Hex) + Numeral(bytes[2 * i + 1], Hex) {
      GroupOfPair(bytes, i);
    }
  }
  /** Two addresses are printed alike exactly when they are so pair by pair. */
  lemma IPv6SameTextIff(a: seq<Byte>, b: seq<Byte>)
    requires |a| == 16 && |b| == 16
    ensures IPv6Text(a) == IPv6Text(b)
      <==> forall k :: 0 <= k < 15 && k % 2 == 0 ==> SamePair(a[k], a[k + 1], b[k], b[k + 1])
  {
    if IPv6Text(a) == IPv6Text(b) {
      GroupsReread(a);
      GroupsReread(b);
      SplitJoin(Groups(a), ':');
      SplitJoin(Groups(b), ':');
      forall k | 0 <= k < 15 && k % 2 == 0 ensures SamePair(a[k], a[k + 1], b[k], b[k + 1]) {
        GroupAt(a, k);
        GroupAt(b, k);
        PairTextIff(a[k], a[k + 1], b[k], b[k + 1]);
      }
    } else if forall k :: 0 <= k < 15 && k % 2 == 0 ==> SamePair(a[k], a[k + 1], b[k], b[k + 1]) {
      forall k | 0 <= k < 15 && k % 2 == 0 ensures PairText(a[k], a[k + 1]) == PairText(b[k], b[k + 1]) {
        PairTextIff(a[k], a[k + 1], b[k], b[k + 1]);
      }
      GroupsOfUpdate(a, b);
    }
  }

  lemma TwinAddress(bytes: seq<Byte>, i: nat) returns (other: seq<Byte>)
    requires |bytes| == 16 && i < 15 && i % 2 == 0 && Ambiguous(bytes[i], bytes[i + 1])
    ensures |other| == 16 && other != bytes && IPv6Text(other) == IPv6Text(bytes)
  {
    var t := Twin(bytes[i], bytes[i + 1]);
    other := bytes[i := t.0][i + 1 := t.1];
    assert (other[i], other[i + 1]) == t;
    forall k | 0 <= k < 15 && k % 2 == 0 ensures SamePair(bytes[k], bytes[k + 1], other[k], other[k + 1]) {}
    IPv6SameTextIff(bytes, other);
  }

  lemma NoTwinAddress(bytes: seq<Byte>, other: seq<Byte>)
    requires |bytes| == 16 && |other| == 16 && IPv6Text(bytes) == IPv6Text(other)
    requires forall i :: 0 <= i < 15 && i % 2 == 0 ==> !Ambiguous(bytes[i], bytes[i + 1])
    ensures bytes == other
  {
    IPv6SameTextIff(bytes, other);
    forall j | 0 <= j < 16 ensures bytes[j] == other[j] {
      var k := j - j % 2;
      assert SamePair(bytes[k], bytes[k + 1], other[k], other[k + 1]);
    }
  }

  ghost predicate SharesText(bytes: seq<Byte>)
    requires |bytes| == 16
  {
    exists other: seq<Byte> :: |other| == 16 && other != bytes && IPv6Text(other) == IPv6Text(bytes)
  }

  /** An address shares its text with another one exactly when one of its pairs can be cut at another place. */
  lemma IPv6CollisionIff(bytes: seq<Byte>)
    requires |bytes| == 16
    ensures SharesText(bytes) <==> exists i :: 0 <= i < 15 && i % 2 == 0 && Ambiguous(bytes[i], bytes[i + 1])
  {
    if i :| 0 <= i < 15 && i % 2 == 0 && Ambiguous(bytes[i], bytes[i + 1]) {
      var other := TwinAddress(bytes, i);
    } else if SharesText(bytes) {
      var other: seq<Byte> :| |other| == 16 && other != bytes && IPv6Text(other) == IPv6Text(bytes);
      NoTwinAddress(bytes, other);
      assert false;
    }
  }

  // ---- The printer ----

  /** The joined text with a separator after the last part too: what the printing loops have between two rounds. */
  ghost function OpenEnded(parts: seq<string>, sep: char): string {
    if |parts| == 0 then "" else Join(parts, sep) + [sep]
  }

  lemma OpenEndedSnoc(parts: seq<string>, last: string, sep: char)
    ensures Join(parts + [last], sep) == OpenEnded(parts, sep) + last
  {
    if |parts| > 0 { JoinSnoc(parts, last, sep); } else { assert parts + [last] == [last]; }
  }

  method FormIPv4(bytes: seq<Byte>) returns (text: string)
    requires |bytes| == 4
    ensures text == IPv4Text(bytes)
  {
    text := "";
    for i := 0 to 4
      invariant text == if i == 4 then IPv4Text(bytes) else OpenEnded(Octets(bytes[..i]), '.')
    {
      assert bytes[..i + 1][..i] == bytes[..i];
      OpenEndedSnoc(Octets(bytes[..i]), Numeral(bytes[i], Decimal), '.');
      text := text + Numeral(bytes[i], Decimal);
      if i != 3 { text := text + "."; } else { assert bytes[..4] == bytes; }
    }
  }

  method FormIPv6(bytes: seq<Byte>) returns (text: string)
    requires |bytes| == 16
    ensures text == IPv6Text(bytes)
  {
    text := "";
    var i := 0;
    while i < 16
      invariant 0 <= i <= 16 && i % 2 == 0
      invariant text == if i == 16 then IPv6Text(bytes) else OpenEnded(Groups(bytes[..i]), ':')
    {
      assert bytes[..i + 2][..i] == bytes[..i];
      OpenEndedSnoc(Groups(bytes[..i]), PairText(bytes[i], bytes[i + 1]), ':');
      var ss := Numeral(bytes[i], Hex);
      i := i + 1;
      ss := ss + Numeral(bytes[i], Hex);
      text := text + ss;
      if i != 15 { text := text + ":"; } else { assert bytes[..16] == bytes; }
      i := i + 1;
    }
  }

  /** formIpAddressString: four bytes are written in decimal, sixteen as eight hexadecimal pairs. */
  method FormIpAddressString(bytes: seq<Byte>) returns (text: string)
    requires |bytes| == 4 || |bytes| == 16
    ensures |bytes| == 4 ==> text == IPv4Text(bytes)
    ensures |bytes| == 16 ==> text == IPv6Text(bytes)
  {
    if |bytes| == 4 { text := FormIPv4(bytes); } else { text := FormIPv6(bytes); }
  }
}
