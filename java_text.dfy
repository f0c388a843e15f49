/**
 * The parts of java.lang.String and java.lang.Integer that the crossword parsers
 * and the guess check rely on: trim, split (plain and with a limit of 3), replace of
 * one character, ASCII upper-casing, equalsIgnoreCase and Integer.parseInt.
 */
module JavaText {
  import opened Options

  // ---------------------------------------------------------------------------
  // trim
  // ---------------------------------------------------------------------------

  /** String.trim removes every leading and trailing code unit up to U+0020. */
  predicate IsTrimmable(c: char) {
    c <= ' '
  }

  /** Neither end of `s` is a trimmable character. */
  predicate CleanEnds(s: string) {
    s == [] || (!IsTrimmable(s[0]) && !IsTrimmable(s[|s| - 1]))
  }

  predicate AllTrimmable(s: string) {
    forall k :: 0 <= k < |s| ==> IsTrimmable(s[k])
  }

  function TrimStart(s: string): (r: string)
    ensures |r| <= |s|
  {
    if s != [] && IsTrimmable(s[0]) then TrimStart(s[1..]) else s
  }

  function TrimEnd(s: string): (r: string)
    ensures |r| <= |s|
  {
    if s != [] && IsTrimmable(s[|s| - 1]) then TrimEnd(s[..|s| - 1]) else s
  }

  /** String.trim. */
  function Trim(s: string): (r: string)
    ensures |r| <= |s|
  {
    TrimEnd(TrimStart(s))
  }

  /** TrimStart drops a run of trimmable characters and keeps the rest, which starts clean. */
  lemma {:induction false} TrimStartSuffix(s: string)
    ensures TrimStart(s) == s[|s| - |TrimStart(s)|..]
    ensures TrimStart(s) != [] ==> !IsTrimmable(TrimStart(s)[0])
    ensures AllTrimmable(s[..|s| - |TrimStart(s)|])
    decreases |s|
  {
    if s != [] && IsTrimmable(s[0]) {
      TrimStartSuffix(s[1..]);
    }
  }

  /** TrimEnd drops a run of trimmable characters at the end and keeps the rest, which ends clean. */
  lemma {:induction false} TrimEndPrefix(s: string)
    ensures TrimEnd(s) == s[..|TrimEnd(s)|]
    ensures TrimEnd(s) != [] ==> !IsTrimmable(TrimEnd(s)[|TrimEnd(s)| - 1])
    ensures AllTrimmable(s[|TrimEnd(s)|..])
    decreases |s|
  {
    if s != [] && IsTrimmable(s[|s| - 1]) {
      TrimEndPrefix(s[..|s| - 1]);
      assert s[..|s| - 1][|TrimEnd(s)|..] + [s[|s| - 1]] == s[|TrimEnd(s)|..];
    }
  }

  /** What trim returns starts and ends with a character it would not remove. */
  lemma TrimCleanEnds(s: string)
    ensures CleanEnds(Trim(s))
  {
    var t := TrimStart(s);
    TrimStartSuffix(s);
    TrimEndPrefix(t);
    if Trim(s) != [] {
      assert Trim(s)[0] == t[0];
    }
  }

  /** Trimming a clean-ended text leaves it as it is. */
  lemma TrimClean(s: string)
    requires CleanEnds(s)
    ensures Trim(s) == s
  {
    assert [] + s + [] == s;
    TrimRemovesPadding([], s, []);
  }

  /** Trimming removes exactly the padding around a clean-ended text. */
  lemma {:induction false} TrimRemovesPadding(pre: string, s: string, post: string)
    requires AllTrimmable(pre) && AllTrimmable(post) && CleanEnds(s)
    ensures Trim(pre + s + post) == s
  {
    var body := s + post;
    assert pre + s + post == pre + body;
    TrimStartPadding(pre, body);
    if s == [] {
      assert body == post;
      TrimStartAll(post);
    } else {
      assert body[0] == s[0];
      TrimStartClean(body);
      TrimEndPadding(s, post);
    }
  }

  lemma {:induction false} TrimStartPadding(pre: string, s: string)
    requires AllTrimmable(pre)
    ensures TrimStart(pre + s) == TrimStart(s)
    decreases |pre|
  {
    if pre != [] {
      assert (pre + s)[1..] == pre[1..] + s;
      TrimStartPadding(pre[1..], s);
    } else {
      assert pre + s == s;
    }
  }

  lemma TrimStartClean(s: string)
    requires s != [] && !IsTrimmable(s[0])
    ensures TrimStart(s) == s
  {
  }

  lemma {:induction false} TrimStartAll(s: string)
    requires AllTrimmable(s)
    ensures TrimStart(s) == [] && TrimEnd([]) == []
    decreases |s|
  {
    if s != [] {
      TrimStartAll(s[1..]);
    }
  }

  lemma {:induction false} TrimEndPadding(s: string, post: string)
    requires AllTrimmable(post) && s != [] && !IsTrimmable(s[|s| - 1])
    ensures TrimEnd(s + post) == s
    decreases |post|
  {
    if post == [] {
      assert s + post == s;
    } else {
      assert (s + post)[..|s + post| - 1] == s + post[..|post| - 1];
      TrimEndPadding(s, post[..|post| - 1]);
    }
  }

  // ---------------------------------------------------------------------------
  // split
  // ---------------------------------------------------------------------------

  /** The position of the first `c` in `s`. */
  function IndexOf(s: string, c: char): (i: nat)
    requires c in s
    ensures i < |s| && s[i] == c && c !in s[..i]
  {
    if s[0] == c then 0 else
      var k := IndexOf(s[1..], c);
      assert s[..k + 1] == [s[0]] + s[1..][..k];
      k + 1
  }

  /** The fields joined back together, one separator between neighbours. */
  function Join(parts: seq<string>, sep: char): string
  {
    if |parts| == 0 then ""
    else if |parts| == 1 then parts[0]
    else parts[0] + [sep] + Join(parts[1..], sep)
  }

  /** Every field between separators, empty ones included (String.split with a negative limit). */
  function SplitAll(s: string, sep: char): (parts: seq<string>)
    ensures |parts| >= 1
    decreases |s|
  {
    if sep !in s then [s]
    else
      var i := IndexOf(s, sep);
      [s[..i]] + SplitAll(s[i + 1..], sep)
  }

  /** The fields hold no separator, and joining them gives the text back. */
  lemma SplitAllJoin(s: string, sep: char)
    ensures forall k :: 0 <= k < |SplitAll(s, sep)| ==> sep !in SplitAll(s, sep)[k]
    ensures Join(SplitAll(s, sep), sep) == s
  {
    SplitAllFields(s, sep);
    SplitAllJoinBack(s, sep);
  }

  /** No field of the full split holds the separator. */
  lemma {:induction false} SplitAllFields(s: string, sep: char)
    ensures forall k :: 0 <= k < |SplitAll(s, sep)| ==> sep !in SplitAll(s, sep)[k]
    decreases |s|
  {
    if sep in s {
      var i := IndexOf(s, sep);
      SplitAllFields(s[i + 1..], sep);
    }
  }

  /** Joining the fields of the full split gives the text back. */
  lemma {:induction false} SplitAllJoinBack(s: string, sep: char)
    ensures Join(SplitAll(s, sep), sep) == s
    decreases |s|
  {
    if sep in s {
      var i := IndexOf(s, sep);
      SplitAllJoinBack(s[i + 1..], sep);
      assert s == s[..i] + [sep] + s[i + 1..];
    }
  }

  /** Splitting a join of separator-free fields gives the fields back. */
  lemma {:induction false} SplitJoin(parts: seq<string>, sep: char)
    requires |parts| >= 1
    requires forall k :: 0 <= k < |parts| ==> sep !in parts[k]
    ensures SplitAll(Join(parts, sep), sep) == parts
    decreases |parts|
  {
    if |parts| > 1 {
      var s := Join(parts, sep);
      var tail := Join(parts[1..], sep);
      assert s == parts[0] + [sep] + tail;
      assert sep in s by { assert s[|parts[0]|] == sep; }
      var i := IndexOf(s, sep);
      assert s[..|parts[0]|] == parts[0];
      assert s[|parts[0]|] == sep;
      assert i == |parts[0]|;
      assert s[..i] == parts[0];
      assert s[i + 1..] == tail;
      SplitJoin(parts[1..], sep);
      assert SplitAll(s, sep) == [parts[0]] + parts[1..];
    }
  }

  /** The number of occurrences of `c` in `s`. */
  function Count(s: string, c: char): nat
  {
    multiset(s)[c]
  }

  /** There is one more field than there are separators. */
  lemma {:induction false} SplitAllCount(s: string, sep: char)
    ensures |SplitAll(s, sep)| == Count(s, sep) + 1
    decreases |s|
  {
    if sep in s {
      var i := IndexOf(s, sep);
      assert s == s[..i] + [sep] + s[i + 1..];
      assert multiset(s) == multiset(s[..i]) + multiset([sep]) + multiset(s[i + 1..]);
      assert multiset(s[..i])[sep] == 0;
      SplitAllCount(s[i + 1..], sep);
    } else {
      assert multiset(s)[sep] == 0;
    }
  }

  /** The longest prefix that does not end in an empty field. */
  function DropTrailingEmpty(parts: seq<string>): (r: seq<string>)
    ensures |r| <= |parts|
  {
    if parts != [] && parts[|parts| - 1] == "" then DropTrailingEmpty(parts[..|parts| - 1]) else parts
  }

  /** What is dropped is a run of empty fields at the end, and what is kept does not end in one. */
  lemma {:induction false} DropTrailingEmptyPrefix(parts: seq<string>)
    ensures DropTrailingEmpty(parts) <= parts
    ensures DropTrailingEmpty(parts) == [] || DropTrailingEmpty(parts)[|DropTrailingEmpty(parts)| - 1] != ""
    ensures forall k :: |DropTrailingEmpty(parts)| <= k < |parts| ==> parts[k] == ""
    decreases |parts|
  {
    if parts != [] && parts[|parts| - 1] == "" {
      DropTrailingEmptyPrefix(parts[..|parts| - 1]);
    }
  }

  /**
   * String.split with the default limit of 0: a text without the separator is its
   * own single field; otherwise every field, less the empty ones at the end.
   */
  function JavaSplit(s: string, sep: char): (r: seq<string>)
    ensures sep !in s ==> r == [s]
  {
    if sep !in s then [s] else DropTrailingEmpty(SplitAll(s, sep))
  }

  /**
   * With the separator present, the fields are those of the full split up to the
   * last non-empty one; all later fields of the full split are empty.
   */
  lemma JavaSplitFields(s: string, sep: char)
    requires sep in s
    ensures JavaSplit(s, sep) <= SplitAll(s, sep)
    ensures JavaSplit(s, sep) == [] || JavaSplit(s, sep)[|JavaSplit(s, sep)| - 1] != ""
    ensures forall k :: |JavaSplit(s, sep)| <= k < |SplitAll(s, sep)| ==> SplitAll(s, sep)[k] == ""
  {
    DropTrailingEmptyPrefix(SplitAll(s, sep));
  }

  /**
   * String.split with a limit of 3: the separator is applied at most twice, so the
   * third field keeps any later separators; empty fields are kept.
   */
  function SplitAtMost3(s: string, sep: char): (r: seq<string>)
    ensures 1 <= |r| <= 3
  {
    if sep !in s then [s]
    else
      var i := IndexOf(s, sep);
      var rest := s[i + 1..];
      if sep !in rest then [s[..i], rest]
      else
        var j := IndexOf(rest, sep);
        [s[..i], rest[..j], rest[j + 1..]]
  }

  /**
   * The fields of a limit-3 split join back to the text; only the last field may hold
   * the separator, and only when there are three fields.
   */
  lemma SplitAtMost3Join(s: string, sep: char)
    ensures Join(SplitAtMost3(s, sep), sep) == s
    ensures forall k :: 0 <= k < |SplitAtMost3(s, sep)| - 1 ==> sep !in SplitAtMost3(s, sep)[k]
    ensures |SplitAtMost3(s, sep)| < 3 ==> sep !in SplitAtMost3(s, sep)[|SplitAtMost3(s, sep)| - 1]
  {
    var r := SplitAtMost3(s, sep);
    if sep in s {
      var i := IndexOf(s, sep);
      var rest := s[i + 1..];
      assert s == s[..i] + [sep] + rest;
      if sep in rest {
        SplitThreeJoin(s[..i], rest, sep);
        assert sep !in r[0] && sep !in r[1];
      } else {
        assert sep !in r[0] && sep !in r[1];
      }
    }
  }

  /** The three-field case of SplitAtMost3Join, `head` being the text before the first separator. */
  lemma SplitThreeJoin(head: string, rest: string, sep: char)
    requires sep !in head && sep in rest
    ensures var j := IndexOf(rest, sep);
            Join([head, rest[..j], rest[j + 1..]], sep) == head + [sep] + rest && sep !in rest[..j]
  {
    var j := IndexOf(rest, sep);
    var r := [head, rest[..j], rest[j + 1..]];
    assert rest == rest[..j] + [sep] + rest[j + 1..];
    assert Join(r[1..], sep) == rest[..j] + [sep] + Join(r[2..], sep);
  }

  /** The first separator of pre + [sep] + post is the one after `pre`, when `pre` has none. */
  lemma IndexOfAfter(pre: string, sep: char, post: string)
    requires sep !in pre
    ensures IndexOf(pre + [sep] + post, sep) == |pre|
  {
    var s := pre + [sep] + post;
    assert s[|pre|] == sep;
  }

  /** With no separator in the first two fields, a limit-3 split gives exactly the three fields back. */
  lemma SplitAtMost3Of(a: string, b: string, rest: string, sep: char)
    requires sep !in a && sep !in b
    ensures SplitAtMost3(a + [sep] + b + [sep] + rest, sep) == [a, b, rest]
  {
    var tail := b + [sep] + rest;
    var s := a + [sep] + b + [sep] + rest;
    assert s == a + [sep] + tail;
    IndexOfAfter(a, sep, tail);
    assert s[|a| + 1..] == tail;
    assert sep in tail by { assert tail[|b|] == sep; }
    IndexOfAfter(b, sep, rest);
    assert s[..|a|] == a;
    assert tail[..|b|] == b && tail[|b| + 1..] == rest;
  }

  /** Three fields come back exactly when the text holds the separator at least twice. */
  lemma SplitAtMost3Fields(s: string, sep: char)
    ensures |SplitAtMost3(s, sep)| == 3 <==> Count(s, sep) >= 2
  {
    var r := SplitAtMost3(s, sep);
    SplitAtMost3Join(s, sep);
    if |r| == 1 {
      assert s == r[0];
    } else if |r| == 2 {
      assert s == r[0] + [sep] + r[1];
      CountAround(r[0], r[1], sep);
    } else {
      var tail := r[1] + [sep] + r[2];
      assert s == r[0] + [sep] + tail;
      CountAround(r[0], tail, sep);
      CountAround(r[1], r[2], sep);
    }
  }

  lemma CountAround(a: string, b: string, sep: char)
    ensures Count(a + [sep] + b, sep) == Count(a, sep) + 1 + Count(b, sep)
  {
    assert multiset(a + [sep] + b) == multiset(a) + multiset([sep]) + multiset(b);
  }

  // ---------------------------------------------------------------------------
  // replace of one character by nothing
  // ---------------------------------------------------------------------------

  /** String.replace(c, "") for a single character `c`: every `c` deleted, the rest in order. */
  function RemoveChar(s: string, c: char): (r: string)
    ensures |r| <= |s|
  {
    if s == [] then []
    else
      var rest := RemoveChar(s[1..], c);
      if s[0] == c then rest else [s[0]] + rest
  }

  /** No `c` is left, and every other character occurs as often as before. */
  lemma {:induction false} RemoveCharCounts(s: string, c: char)
    ensures c !in RemoveChar(s, c)
    ensures forall x :: x != c ==> multiset(RemoveChar(s, c))[x] == multiset(s)[x]
    decreases |s|
  {
    if s != [] {
      RemoveCharCounts(s[1..], c);
      assert s == [s[0]] + s[1..];
    }
  }

  /** Deleting a character the text does not hold changes nothing. */
  lemma {:induction false} RemoveCharAbsent(s: string, c: char)
    requires c !in s
    ensures RemoveChar(s, c) == s
    decreases |s|
  {
    if s != [] {
      assert c !in s[1..];
      RemoveCharAbsent(s[1..], c);
    }
  }

  /** Deleting distributes over concatenation, so the kept characters stay in order. */
  lemma {:induction false} RemoveCharAppend(a: string, b: string, c: char)
    ensures RemoveChar(a + b, c) == RemoveChar(a, c) + RemoveChar(b, c)
    decreases |a|
  {
    if a == [] {
      assert a + b == b;
    } else {
      assert (a + b)[1..] == a[1..] + b;
      RemoveCharAppend(a[1..], b, c);
    }
  }

  // ---------------------------------------------------------------------------
  // case
  // ---------------------------------------------------------------------------

  predicate IsLowerAscii(c: char) {
    'a' <= c <= 'z'
  }

  /** Character.toUpperCase on the ASCII range. */
  function UpperChar(c: char): (u: char)
    ensures !IsLowerAscii(u)
    ensures !IsLowerAscii(c) ==> u == c
    ensures IsLowerAscii(c) ==> u as int == c as int - 32
  {
    if IsLowerAscii(c) then (c as int - 'a' as int + 'A' as int) as char else c
  }

  /** String.toUpperCase on ASCII text. */
  function Upper(s: string): (r: string)
    ensures |r| == |s|
    ensures forall k :: 0 <= k < |s| ==> r[k] == UpperChar(s[k])
    ensures forall k :: 0 <= k < |r| ==> !IsLowerAscii(r[k])
    ensures forall k :: 0 <= k < |s| && !IsLowerAscii(s[k]) ==> r[k] == s[k]
  {
    seq(|s|, k requires 0 <= k < |s| => UpperChar(s[k]))
  }

  /** String.equalsIgnoreCase on ASCII text. */
  predicate EqualsIgnoreCase(a: string, b: string) {
    |a| == |b| && forall k :: 0 <= k < |a| ==> UpperChar(a[k]) == UpperChar(b[k])
  }

  /** Ignoring case is comparing the upper-cased texts. */
  lemma EqualsIgnoreCaseUpper(a: string, b: string)
    ensures EqualsIgnoreCase(a, b) <==> Upper(a) == Upper(b)
  {
    if Upper(a) == Upper(b) {
      assert |a| == |b|;
      forall k | 0 <= k < |a| ensures UpperChar(a[k]) == UpperChar(b[k]) {
        assert Upper(a)[k] == Upper(b)[k];
      }
    }
  }

  /** Upper-casing is idempotent. */
  lemma UpperIdempotent(s: string)
    ensures Upper(Upper(s)) == Upper(s)
  {
  }

  // ---------------------------------------------------------------------------
  // Integer.parseInt
  // ---------------------------------------------------------------------------

  const INT_MIN: int := -0x8000_0000
  const INT_MAX: int := 0x7fff_ffff

  predicate IsDigit(c: char) {
    '0' <= c <= '9'
  }

  predicate AllDigits(s: string) {
    forall k :: 0 <= k < |s| ==> IsDigit(s[k])
  }

  /** The value of a run of decimal digits, most significant first. */
  function DigitsValue(s: string): nat
    requires AllDigits(s)
  {
    if s == [] then 0 else DigitsValue(s[..|s| - 1]) * 10 + (s[|s| - 1] as int - '0' as int)
  }

  /**
   * Integer.parseInt in radix 10: an optional sign, at least one digit, and a value
   * that fits in 32 bits; anything else is a NumberFormatException (None).
   */
  function ParseInt(s: string): (r: Option<int>)
    ensures r.Some? ==> INT_MIN <= r.value <= INT_MAX
    ensures r.Some? ==> s != [] && AllDigits(s[1..])
    ensures r.Some? && s[0] == '-' ==> r.value <= 0
  {
    if s == [] then None
    else if s[0] == '-' || s[0] == '+' then
      if |s| == 1 || !AllDigits(s[1..]) then None
      else
        var v: int := if s[0] == '-' then 0 - DigitsValue(s[1..]) as int else DigitsValue(s[1..]);
        if INT_MIN <= v <= INT_MAX then Some(v) else None
    else if !AllDigits(s) then None
    else if DigitsValue(s) <= INT_MAX then Some(DigitsValue(s)) else None
  }

  /** What Integer.parseInt accepts starts with a sign or a digit and goes on with digits only; a sign alone is refused. */
  lemma ParseIntSyntax(s: string)
    ensures ParseInt(s).Some? ==> s != [] && (s[0] == '+' || s[0] == '-' || IsDigit(s[0])) && AllDigits(s[1..])
    ensures ParseInt(s).Some? && (s[0] == '+' || s[0] == '-') ==> |s| >= 2
  {
  }

  /**
   * The value of a sign followed by digits: no sign or '+' gives the digits' value and
   * '-' its negation, each only when it fits in 32 bits.
   */
  lemma ParseIntSigned(d: string)
    requires d != [] && AllDigits(d)
    ensures ParseInt(d) == if DigitsValue(d) <= INT_MAX then Some(DigitsValue(d)) else None
    ensures ParseInt("+" + d) == ParseInt(d)
    ensures ParseInt("-" + d) == if DigitsValue(d) <= -INT_MIN then Some(0 - DigitsValue(d) as int) else None
  {
    assert ("+" + d)[1..] == d && ("-" + d)[1..] == d;
  }

  /** Leading zeros do not change the value of a run of digits ("007" is 7). */
  lemma {:induction false} LeadingZero(d: string)
    requires AllDigits(d)
    ensures AllDigits("0" + d) && DigitsValue("0" + d) == DigitsValue(d)
  {
    if d != [] {
      var z := "0" + d;
      assert z[..|z| - 1] == "0" + d[..|d| - 1];
      LeadingZero(d[..|d| - 1]);
    }
  }

  /** Decimal digits of a natural number, as Integer.toString writes them. */
  function NatDigits(n: nat): (s: string)
    ensures s != [] && AllDigits(s)
  {
    var d := [('0' as int + n % 10) as char];
    if n < 10 then d else NatDigits(n / 10) + d
  }

  lemma {:induction false} NatDigitsValue(n: nat)
    ensures DigitsValue(NatDigits(n)) == n
  {
    var s := NatDigits(n);
    if n >= 10 {
      NatDigitsValue(n / 10);
      assert s[..|s| - 1] == NatDigits(n / 10);
    }
  }

  /** Integer.toString. */
  function IntString(n: int): string
  {
    if n < 0 then "-" + NatDigits(-n) else NatDigits(n)
  }

  /** Parsing what Integer.toString writes gives the number back, for every 32-bit value. */
  lemma ParseIntString(n: int)
    requires INT_MIN <= n <= INT_MAX
    ensures ParseInt(IntString(n)) == Some(n)
  {
    NatDigitsValue(if n < 0 then -n else n);
    if n < 0 {
      assert IntString(n)[1..] == NatDigits(-n);
    }
  }
}
