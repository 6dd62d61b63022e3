/** Topic wire paths `t.<index>.<key>`: how the server prints them
    (topic_handle.cpp) and how the client parses them (getTopicInfo). */
module TopicPath {
  import opened Types
  import VarDecimal

  // ---------- std::to_string and std::stoi ----------

  function DigitChar(d: nat): (c: char)
    requires d < 10
    ensures VarDecimal.IsDigit(c) && VarDecimal.Digit(c) == d
  {
    '0' + d as char
  }

  function NatToString(n: nat): (s: string)
    ensures s != "" && VarDecimal.AllDigits(s)
  {
    (if n < 10 then "" else NatToString(n / 10)) + [DigitChar(n % 10)]
  }

  lemma {:induction false} NatRoundTrip(n: nat)
    ensures VarDecimal.NatOf(NatToString(n)) == n
  {
    var s, front := NatToString(n), if n < 10 then "" else NatToString(n / 10);
    assert s == front + [DigitChar(n % 10)];
    hide NatToString, DigitChar;
    if n >= 10 {
      NatRoundTrip(n / 10);
    }
    assert s[..|s| - 1] == front;
    assert VarDecimal.NatOf(s) == 10 * VarDecimal.NatOf(front) + n % 10;
  }

  predicate IsSpace(c: char) {
    c == ' ' || '\t' <= c <= '\r'
  }

  function SkipSpaces(s: string): string {
    if s != "" && IsSpace(s[0]) then SkipSpaces(s[1..]) else s
  }

  /** The longest prefix of digits. */
  function LeadingDigits(s: string): (d: string)
    ensures |d| <= |s| && d == s[..|d|] && VarDecimal.AllDigits(d)
    ensures |d| < |s| ==> !VarDecimal.IsDigit(s[|d|])
  {
    if s != "" && VarDecimal.IsDigit(s[0]) then [s[0]] + LeadingDigits(s[1..]) else ""
  }

  /** std::stoi: blanks, an optional sign, digits, anything after; None for its exceptions. */
  function Stoi(text: string): Option<i32> {
    var s := SkipSpaces(text);
    var negative := s != "" && s[0] == '-';
    var digits := LeadingDigits(if negative || (s != "" && s[0] == '+') then s[1..] else s);
    var n: int := VarDecimal.NatOf(digits);
    var v := if negative then -n else n;
    if digits == "" || v < -0x8000_0000 || v >= 0x8000_0000 then None else Some(v)
  }

  /** The blanks of isspace: tab to carriage return, and the space. */
  predicate Blank(s: string) {
    forall i :: 0 <= i < |s| ==> s[i] as int in {9, 10, 11, 12, 13, 32}
  }

  /** What std::stoi accepts: blanks, at most one sign, at least one digit, and then
      anything that does not go on with a digit. */
  predicate Numeral(blank: string, sign: string, digits: string, rest: string) {
    && Blank(blank) && sign in {"", "+", "-"} && digits != "" && VarDecimal.AllDigits(digits)
    && (rest != "" ==> !VarDecimal.IsDigit(rest[0]))
  }

  /** On such a text it is the signed number when that fits an int, and throws when not. */
  lemma StoiReads(blank: string, sign: string, digits: string, rest: string)
    requires Numeral(blank, sign, digits, rest)
    ensures
      var n: int := VarDecimal.NatOf(digits);
      var v := if sign == "-" then -n else n;
      Stoi(blank + sign + digits + rest) == if -0x8000_0000 <= v < 0x8000_0000 then Some(v) else None
  {
    hide VarDecimal.NatOf, SkipSpaces, LeadingDigits, Blank;
    var t := digits + rest;
    var s := sign + t;
    assert blank + sign + digits + rest == blank + s;
    FirstIsDigit(digits, rest);
    SkipsBlanks(blank, s);
    LeadingRun(digits, rest);
    if sign == "" {
      assert s == t;
    } else {
      assert s[0] == sign[0] && s[1..] == t;
    }
  }

  lemma FirstIsDigit(digits: string, rest: string)
    requires digits != "" && VarDecimal.AllDigits(digits)
    ensures digits + rest != "" && VarDecimal.IsDigit((digits + rest)[0])
  {
  }

  lemma {:induction false} SkipsBlanks(blank: string, s: string)
    requires Blank(blank) && s != "" && !IsSpace(s[0])
    ensures SkipSpaces(blank + s) == s
  {
    if blank == "" {
      assert blank + s == s;
    } else {
      SkipsBlanks(blank[1..], s);
      assert (blank + s)[0] == blank[0] && (blank + s)[1..] == blank[1..] + s;
    }
  }

  lemma {:induction false} LeadingRun(digits: string, rest: string)
    requires VarDecimal.AllDigits(digits) && (rest != "" ==> !VarDecimal.IsDigit(rest[0]))
    ensures LeadingDigits(digits + rest) == digits
  {
    if digits == "" {
      assert digits + rest == rest;
    } else {
      LeadingRun(digits[1..], rest);
      assert (digits + rest)[0] == digits[0] && (digits + rest)[1..] == digits[1..] + rest;
    }
  }

  /** It accepts nothing else. */
  lemma StoiShape(text: string) returns (blank: string, sign: string, digits: string, rest: string)
    requires Stoi(text).Some?
    ensures Numeral(blank, sign, digits, rest) && text == blank + sign + digits + rest
  {
    hide *;
    var s := SkipSpaces(text);
    blank := SkippedBlanks(text);
    sign := SignOf(s);
    StoiDigits(text);
    var t := s[|sign|..];
    digits := LeadingDigits(t);
    rest := t[|digits|..];
    Rejoin(blank, sign, digits, rest, t);
    IsNumeral(blank, sign, digits, rest);
  }

  lemma Rejoin(blank: string, sign: string, digits: string, rest: string, t: string)
    requires t == digits + rest
    ensures blank + (sign + t) == blank + sign + digits + rest
  {
  }

  function SignOf(s: string): (sign: string)
    ensures |sign| <= |s|
  {
    if s != "" && (s[0] == '-' || s[0] == '+') then [s[0]] else ""
  }

  lemma StoiDigits(text: string)
    requires Stoi(text).Some?
    ensures
      var s := SkipSpaces(text);
      && |SignOf(s)| <= |s| && s == SignOf(s) + s[|SignOf(s)|..] && SignOf(s) in {"", "+", "-"}
      && LeadingDigits(s[|SignOf(s)|..]) != ""
  {
    hide VarDecimal.NatOf, SkipSpaces, LeadingDigits;
  }

  lemma IsNumeral(blank: string, sign: string, digits: string, rest: string)
    requires Blank(blank) && sign in {"", "+", "-"} && digits != "" && VarDecimal.AllDigits(digits)
    requires rest != "" ==> !VarDecimal.IsDigit(rest[0])
    ensures Numeral(blank, sign, digits, rest)
  {
  }

  lemma {:induction false} SkippedBlanks(text: string) returns (blank: string)
    ensures Blank(blank) && text == blank + SkipSpaces(text)
  {
    if text != "" && IsSpace(text[0]) {
      var b := SkippedBlanks(text[1..]);
      blank := [text[0]] + b;
    } else {
      blank := "";
    }
  }

  lemma StoiOfNat(n: nat)
    requires n < 0x8000_0000
    ensures Stoi(NatToString(n)) == Some(n)
  {
    var s := NatToString(n);
    assert VarDecimal.IsDigit(s[0]);
    AllLeading(s);
    NatRoundTrip(n);
  }

  lemma {:induction false} AllLeading(s: string)
    requires VarDecimal.AllDigits(s)
    ensures LeadingDigits(s) == s
  {
    if s != "" { AllLeading(s[1..]); }
  }

  // ---------- Paths ----------

  datatype TopicInfo = TopicInfo(topicIdx: int, userKey: string)

  /** The wire prefix of topic i. */
  function Prefix(i: nat): string {
    "t." + NatToString(i) + "."
  }

  /** Index of the first dot at or after `from`; the length when there is none. */
  function DotFrom(s: string, from: nat): (d: nat)
    requires from <= |s|
    ensures from <= d <= |s| && (d < |s| ==> s[d] == '.')
    ensures forall i :: from <= i < d ==> s[i] != '.'
    decreases |s| - from
  {
    if from == |s| || s[from] == '.' then from else DotFrom(s, from + 1)
  }

  function ParseTopic(path: string): Option<TopicInfo> {
    if |path| > 2 && path[0] == 't' && path[1] == '.' then
      var dot := DotFrom(path, 2);
      if dot == |path| then None
      else
        match Stoi(path[2..dot])
        case None => None
        case Some(idx) => Some(TopicInfo(idx, path[dot + 1..]))
    else None
  }

  /** Parsing inverts printing, for every index and every key, dots included. */
  lemma ParsePrint(i: nat, key: string)
    requires i < 0x8000_0000
    ensures ParseTopic(Prefix(i) + key) == Some(TopicInfo(i, key))
  {
    var path, n := Prefix(i) + key, NatToString(i);
    var dot := DotFrom(path, 2);
    assert forall k :: 2 <= k < 2 + |n| ==> path[k] == n[k - 2];
    assert path[2 + |n|] == '.';
    assert dot == 2 + |n|;
    assert path[2..dot] == n;
    assert path[dot + 1..] == key;
    StoiOfNat(i);
  }

  /** Distinct (index, key) pairs never share a wire path. */
  lemma PrefixInjective(i: nat, key: string, j: nat, key': string)
    requires i < 0x8000_0000 && j < 0x8000_0000
    requires Prefix(i) + key == Prefix(j) + key'
    ensures i == j && key == key'
  {
    ParsePrint(i, key);
    ParsePrint(j, key');
  }

  predicate StartsWith(s: string, prefix: string) {
    |prefix| <= |s| && s[..|prefix|] == prefix
  }

  /** The routes agree: a path is found by a topic handle's prefix lookup if and
      only if the client's parse names that topic and the index is written as
      the server prints it. */
  lemma LookupAgreesWithParse(path: string, i: nat)
    requires i < 0x8000_0000
    ensures StartsWith(path, Prefix(i)) <==> ParsesTo(path, i)
    ensures StartsWith(path, Prefix(i)) ==>
              ParseTopic(path) == Some(TopicInfo(i, path[|Prefix(i)|..]))
  {
    hide NatToString, Stoi;
    if StartsWith(path, Prefix(i)) {
      PrefixParses(path, i);
    }
    if ParsesTo(path, i) {
      var dot := DotFrom(path, 2);
      assert path[..dot + 1] == path[..2] + path[2..dot] + [path[dot]];
      assert path[..2] == "t.";
    }
  }

  /** The client's parse names topic i, and the index text is the printed one. */
  predicate ParsesTo(path: string, i: nat) {
    && ParseTopic(path).Some? && ParseTopic(path).value.topicIdx == i
    && path[2..DotFrom(path, 2)] == NatToString(i)
  }

  lemma PrefixParses(path: string, i: nat)
    requires i < 0x8000_0000 && StartsWith(path, Prefix(i))
    ensures ParsesTo(path, i)
    ensures ParseTopic(path) == Some(TopicInfo(i, path[|Prefix(i)|..]))
  {
    var n, key := NatToString(i), path[|Prefix(i)|..];
    assert path == Prefix(i) + key;
    ParsePrint(i, key);
    hide NatToString, Stoi;
    assert forall k :: 2 <= k < 2 + |n| ==> path[k] == n[k - 2];
    assert path[2 + |n|] == '.';
    assert DotFrom(path, 2) == 2 + |n|;
    assert path[2..2 + |n|] == n;
  }

  /** The canonical-index condition is needed: a flat key can parse as a topic
      key although no topic prints it, so the client would not report it as a
      flat key. */
  lemma StrayFlatKey()
    ensures ParseTopic("t.1a.x") == Some(TopicInfo(1, "x"))
    ensures forall i: nat :: i < 0x8000_0000 ==> !StartsWith("t.1a.x", Prefix(i))
  {
    var path := "t.1a.x";
    assert DotFrom(path, 2) == 4 by {
      assert DotFrom(path, 4) == 4;
      assert DotFrom(path, 3) == 4;
    }
    assert path[2..4] == "1a" && path[5..] == "x";
    assert LeadingDigits("1a") == "1" by { assert LeadingDigits("1a"[1..]) == ""; }
    assert VarDecimal.NatOf("1") == 1 by { assert "1"[..0] == ""; }
    assert SkipSpaces("1a") == "1a";
    assert !VarDecimal.AllDigits("1a") by { assert !VarDecimal.IsDigit("1a"[1]); }
    forall i: nat | i < 0x8000_0000 ensures !StartsWith(path, Prefix(i)) {
      LookupAgreesWithParse(path, i);
    }
  }

  /** An index beyond int makes the path a flat one: the number throws, and nothing else does. */
  lemma ParsePrintIff(i: nat, key: string)
    ensures ParseTopic(Prefix(i) + key) == if i < 0x8000_0000 then Some(TopicInfo(i, key)) else None
  {
    if i < 0x8000_0000 {
      ParsePrint(i, key);
    } else {
      hide NatToString;
      var n := NatToString(i);
      var path := Prefix(i) + key;
      DigitsBeforeDot(n, key);
      BigNumber(i);
    }
  }

  lemma DigitsBeforeDot(n: string, key: string)
    requires n != "" && VarDecimal.AllDigits(n)
    ensures
      var path := "t." + n + "." + key;
      DotFrom(path, 2) == 2 + |n| && path[2..2 + |n|] == n
  {
    var path := "t." + n + "." + key;
    assert path[2..2 + |n|] == n && path[2 + |n|] == '.';
    assert forall i :: 2 <= i < 2 + |n| ==> path[i] == n[i - 2];
  }

  lemma BigNumber(i: nat)
    requires i >= 0x8000_0000
    ensures Stoi(NatToString(i)) == None
  {
    var s := NatToString(i);
    assert VarDecimal.IsDigit(s[0]);
    AllLeading(s);
    NatRoundTrip(i);
  }
}
