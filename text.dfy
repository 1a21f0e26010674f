/** String primitives of Python and ECMAScript that the gateway and the client
    SDK rely on: split on a separator, join, strip/trim, ASCII lower-casing,
    and the small searches (`index`, prefix before a character, remove a
    character) that `str.replace`, `String.prototype.replace` and `split(...)[0]`
    amount to. */
module Text {

  // ---------------------------------------------------------------------------
  // Searching for one character

  /** Index of the first occurrence of `c` in `s`. */
  function IndexOf(s: string, c: char): (i: nat)
    requires c in s
    ensures i < |s| && s[i] == c && c !in s[..i]
  {
    if s[0] == c then 0
    else
      assert c in s[1..] by { assert s == [s[0]] + s[1..]; }
      var j := IndexOf(s[1..], c);
      assert s[..j + 1] == [s[0]] + s[1..][..j];
      j + 1
  }

  /** The part of `s` before the first `c` (all of `s` when there is none). */
  function TakeUntil(s: string, c: char): (r: string)
    ensures c !in r
    ensures |r| <= |s| && r == s[..|r|]
    ensures |r| < |s| ==> s[|r|] == c
  {
    if c in s then s[..IndexOf(s, c)] else s
  }

  /** `s` with every occurrence of `c` deleted (Python `s.replace(c, "")`). */
  function Erase(s: string, c: char): (r: string)
    ensures c !in r
    ensures |r| <= |s|
    ensures forall x :: x in r ==> x in s
    ensures c !in s ==> r == s
  {
    if s == [] then []
    else
      var rest := Erase(s[1..], c);
      assert forall x :: x in rest ==> x in s by { assert s == [s[0]] + s[1..]; }
      assert c !in s ==> rest == s[1..] && [s[0]] + s[1..] == s;
      if s[0] == c then rest else [s[0]] + rest
  }

  /** `s` with only the first occurrence of `c` deleted (ECMAScript
      `s.replace(/c/, "")`, a regular expression without the `g` flag). */
  function RemoveFirst(s: string, c: char): (r: string)
    ensures forall x :: x in r ==> x in s
    ensures c in s ==> |r| == |s| - 1 && multiset(r)[c] == multiset(s)[c] - 1
    ensures c !in s ==> r == s
  {
    if c in s then
      var i := IndexOf(s, c);
      assert s == s[..i] + [c] + s[i + 1..];
      s[..i] + s[i + 1..]
    else s
  }

  predicate StartsWith(s: string, prefix: string) {
    |prefix| <= |s| && s[..|prefix|] == prefix
  }

  // ---------------------------------------------------------------------------
  // Split and join

  /** `s.split(sep)` in Python and in ECMAScript for a non-empty separator:
      the occurrences of `sep` are found left to right without overlap, and
      the pieces between them are returned, empty pieces included. */
  function SplitOn(s: string, sep: string): (parts: seq<string>)
    requires sep != ""
    ensures |parts| >= 1
    decreases |s|
  {
    if |s| < |sep| then [s]
    else if s[..|sep|] == sep then [""] + SplitOn(s[|sep|..], sep)
    else
      var rest := SplitOn(s[1..], sep);
      [[s[0]] + rest[0]] + rest[1..]
  }

  /** `sep.join(parts)` in Python, `parts.join(sep)` in ECMAScript. */
  function Join(parts: seq<string>, sep: string): string {
    if |parts| == 0 then ""
    else if |parts| == 1 then parts[0]
    else parts[0] + sep + Join(parts[1..], sep)
  }

  lemma AppendAssoc(a: string, b: string, c: string)
    ensures a + b + c == a + (b + c)
  {
  }

  lemma JoinTwo(a: string, b: string, sep: string)
    ensures Join([a, b], sep) == a + sep + b
  {
    assert [a, b][1..] == [b];
  }

  lemma JoinCons(head: string, rest: seq<string>, sep: string)
    requires |rest| >= 1
    ensures Join([head] + rest, sep) == head + (sep + Join(rest, sep))
  {
    assert ([head] + rest)[1..] == rest;
  }

  /** Joining the pieces of a split with the same separator gives back the
      original string. */
  lemma {:induction false} JoinSplit(s: string, sep: string)
    requires sep != ""
    ensures Join(SplitOn(s, sep), sep) == s
    decreases |s|
  {
    if |s| < |sep| {
    } else if s[..|sep|] == sep {
      JoinSplit(s[|sep|..], sep);
      JoinAfterEmpty(SplitOn(s[|sep|..], sep), sep);
      Recombine(s, |sep|);
    } else {
      JoinSplit(s[1..], sep);
      JoinGlue(s[0], SplitOn(s[1..], sep), sep);
      Recombine(s, 1);
      assert s[..1] == [s[0]];
    }
  }

  /** An empty first piece contributes only the separator. */
  lemma JoinAfterEmpty(rest: seq<string>, sep: string)
    requires |rest| >= 1
    ensures Join([""] + rest, sep) == sep + Join(rest, sep)
  {
    JoinCons("", rest, sep);
    EmptyAppend(sep + Join(rest, sep));
  }

  /** Gluing a character to the front of the first piece puts it in front
      of the joined text. */
  lemma JoinGlue(c: char, rest: seq<string>, sep: string)
    requires |rest| >= 1
    ensures Join([[c] + rest[0]] + rest[1..], sep) == [c] + Join(rest, sep)
  {
    if |rest| == 1 {
      assert [[c] + rest[0]] + rest[1..] == [[c] + rest[0]];
    } else {
      var tail := sep + Join(rest[1..], sep);
      Recombine(rest, 1);
      assert rest[..1] == [rest[0]];
      JoinCons(rest[0], rest[1..], sep);
      JoinCons([c] + rest[0], rest[1..], sep);
      AppendAssoc([c], rest[0], tail);
    }
  }

  lemma EmptyAppend(s: string)
    ensures "" + s == s
  {
  }

  lemma Recombine<T>(s: seq<T>, k: nat)
    requires k <= |s|
    ensures s[..k] + s[k..] == s
  {
  }

  /** Taking the head off `a + [x] + b`. */
  lemma DropHead<T>(a: seq<T>, x: T, b: seq<T>)
    ensures a == [] ==> (a + [x] + b)[0] == x && (a + [x] + b)[1..] == b
    ensures a != [] ==> (a + [x] + b)[0] == a[0] && (a + [x] + b)[1..] == a[1..] + [x] + b
    ensures a != [] ==> [a[0]] + (a[1..] + b) == a + b
  {
  }

  /** Updating past the head is updating the tail. */
  lemma UpdateTail<T>(s: seq<T>, k: nat, x: T)
    requires 0 < k < |s|
    ensures [s[0]] + s[1..][k - 1 := x] == s[k := x]
  {
  }

  /** Splitting a string without the separator character gives one piece. */
  lemma {:induction false} SplitNoSeparator(s: string, c: char)
    requires c !in s
    ensures SplitOn(s, [c]) == [s]
    decreases |s|
  {
    if |s| > 0 {
      assert s[..1] == [s[0]];
      SplitNoSeparator(s[1..], c);
      assert [s[0]] + s[1..] == s;
    }
  }

  /** The first occurrence of the separator character ends the first piece. */
  lemma {:induction false} SplitCons(a: string, rest: string, c: char)
    requires c !in a
    ensures SplitOn(a + [c] + rest, [c]) == [a] + SplitOn(rest, [c])
    decreases |a|
  {
    var s := a + [c] + rest;
    if a == [] {
      assert s[..1] == [c] && s[1..] == rest;
    } else {
      assert s[..1] == [a[0]] && s[..1] != [c];
      assert s[1..] == a[1..] + [c] + rest;
      SplitCons(a[1..], rest, c);
      assert [a[0]] + a[1..] == a;
    }
  }

  /** A multi-character separator splits nothing off a string that lacks
      its first character. */
  lemma {:induction false} SplitNoLead(s: string, sep: string)
    requires sep != "" && sep[0] !in s
    ensures SplitOn(s, sep) == [s]
    decreases |s|
  {
    if |s| >= |sep| {
      assert s[..|sep|][0] == s[0];
      SplitNoLead(s[1..], sep);
      assert [s[0]] + s[1..] == s;
    }
  }

  /** A piece free of the separator's first character, then the separator,
      splits off as the first piece. */
  lemma {:induction false} SplitLead(a: string, rest: string, sep: string)
    requires sep != "" && sep[0] !in a
    ensures SplitOn(a + sep + rest, sep) == [a] + SplitOn(rest, sep)
    decreases |a|
  {
    var s := a + sep + rest;
    if a == [] {
      assert s == sep + rest;
      assert s[..|sep|] == sep && s[|sep|..] == rest;
    } else {
      assert s[..|sep|][0] == a[0];
      assert s[1..] == a[1..] + sep + rest;
      SplitLead(a[1..], rest, sep);
      assert [a[0]] + a[1..] == a;
    }
  }

  /** Splitting at the first occurrence of `c`. */
  lemma SplitAtFirst(s: string, c: char)
    requires c in s
    ensures SplitOn(s, [c]) == [s[..IndexOf(s, c)]] + SplitOn(s[IndexOf(s, c) + 1..], [c])
  {
    var i := IndexOf(s, c);
    assert s == s[..i] + [c] + s[i + 1..];
    SplitCons(s[..i], s[i + 1..], c);
  }

  /** `s.split(c)[0]` is the part of `s` before the first `c`. */
  lemma SplitHead(s: string, c: char)
    ensures SplitOn(s, [c])[0] == TakeUntil(s, c)
  {
    if c in s {
      SplitAtFirst(s, c);
    } else {
      SplitNoSeparator(s, c);
    }
  }

  /** The second piece is the text between the first `c` and the next. */
  lemma SplitSecond(s: string, c: char)
    requires c in s
    ensures var parts := SplitOn(s, [c]);
      |parts| >= 2 && parts[1] == TakeUntil(s[IndexOf(s, c) + 1..], c)
  {
    var i := IndexOf(s, c);
    SplitAtFirst(s, c);
    SplitHead(s[i + 1..], c);
  }

  /** Splitting on a character gives one piece more than there are
      occurrences of the character. */
  lemma {:induction false} SplitCount(s: string, c: char)
    ensures |SplitOn(s, [c])| == multiset(s)[c] + 1
    decreases |s|
  {
    if c in s {
      var i := IndexOf(s, c);
      SplitAtFirst(s, c);
      assert s == s[..i] + [c] + s[i + 1..];
      assert multiset(s)[c] == multiset(s[..i])[c] + 1 + multiset(s[i + 1..])[c];
      SplitCount(s[i + 1..], c);
    } else {
      SplitNoSeparator(s, c);
    }
  }

  /** A string with one `c` splits into the text around it. */
  lemma SplitPair(a: string, b: string, c: char)
    requires c !in a && c !in b
    ensures SplitOn(a + [c] + b, [c]) == [a, b]
  {
    SplitCons(a, b, c);
    SplitNoSeparator(b, c);
  }

  /** With exactly one `c`, the split gives the text before and after it. */
  lemma SplitAtOnly(s: string, c: char)
    requires multiset(s)[c] == 1
    ensures c in s
    ensures SplitOn(s, [c]) == [s[..IndexOf(s, c)], s[IndexOf(s, c) + 1..]]
  {
    var i := IndexOf(s, c);
    assert s == s[..i] + [c] + s[i + 1..];
    assert multiset(s)[c] == multiset(s[..i])[c] + 1 + multiset(s[i + 1..])[c];
    SplitAtFirst(s, c);
    SplitNoSeparator(s[i + 1..], c);
  }

  // ---------------------------------------------------------------------------
  // Strip / trim, parameterised by the language's notion of white space

  function TrimStart(s: string, space: char -> bool): (r: string)
    ensures |r| <= |s| && r == s[|s| - |r|..]
    ensures forall k :: 0 <= k < |s| - |r| ==> space(s[k])
    ensures r == [] || !space(r[0])
    decreases |s|
  {
    if |s| > 0 && space(s[0]) then TrimStart(s[1..], space) else s
  }

  function TrimEnd(s: string, space: char -> bool): (r: string)
    ensures |r| <= |s| && r == s[..|r|]
    ensures forall k :: |r| <= k < |s| ==> space(s[k])
    ensures r == [] || !space(r[|r| - 1])
    decreases |s|
  {
    if |s| > 0 && space(s[|s| - 1]) then TrimEnd(s[..|s| - 1], space) else s
  }

  /** Leading and trailing white space removed. */
  function Trim(s: string, space: char -> bool): (r: string)
    ensures |r| <= |s|
    ensures r == [] || (!space(r[0]) && !space(r[|r| - 1]))
  {
    TrimEnd(TrimStart(s, space), space)
  }

  /** Trimming removes the first character when it is white space. */
  lemma TrimShortens(s: string, space: char -> bool)
    requires |s| > 0 && space(s[0])
    ensures |Trim(s, space)| < |s|
  {
    assert |TrimStart(s, space)| < |s|;
  }

  /** A leading white-space character is the first thing trimming drops. */
  lemma TrimDropsFirst(s: string, space: char -> bool)
    requires |s| > 0 && space(s[0])
    ensures Trim(s, space) == Trim(s[1..], space)
  {
  }

  /** A string with no white space at either end is its own trim. */
  lemma TrimFixed(s: string, space: char -> bool)
    requires s == [] || (!space(s[0]) && !space(s[|s| - 1]))
    ensures Trim(s, space) == s
  {
  }

  /** White space as Python's `str.strip()` and `str.isspace()` see it. */
  predicate IsPythonSpace(c: char) {
    var n := c as int;
    (9 <= n <= 13) || (28 <= n <= 32) || n == 0x85 || n == 0xA0 || n == 0x1680
    || (0x2000 <= n <= 0x200A) || n == 0x2028 || n == 0x2029 || n == 0x202F
    || n == 0x205F || n == 0x3000
  }

  /** White space and line terminators as ECMAScript's `String.prototype.trim`
      sees them. */
  predicate IsEcmaSpace(c: char) {
    var n := c as int;
    (9 <= n <= 13) || n == 32 || n == 0xA0 || n == 0x1680
    || (0x2000 <= n <= 0x200A) || n == 0x2028 || n == 0x2029 || n == 0x202F
    || n == 0x205F || n == 0x3000 || n == 0xFEFF
  }

  /** Python `s.strip()`. */
  function PythonStrip(s: string): string {
    Trim(s, IsPythonSpace)
  }

  /** ECMAScript `s.trim()`. */
  function EcmaTrim(s: string): string {
    Trim(s, IsEcmaSpace)
  }

  // ---------------------------------------------------------------------------
  // Lower-casing (ASCII letters only)

  function LowerChar(c: char): char {
    if 'A' <= c <= 'Z' then (c as int + 32) as char else c
  }

  /** `s.lower()` / `s.toLowerCase()` restricted to ASCII letters. */
  function Lower(s: string): (r: string)
    ensures |r| == |s|
  {
    seq(|s|, k requires 0 <= k < |s| => LowerChar(s[k]))
  }

  /** A string none of whose characters lower-casing changes. */
  predicate IsLower(s: string) {
    forall x :: x in s ==> LowerChar(x) == x
  }

  lemma LowerIsLower(s: string)
    ensures IsLower(Lower(s))
  {
    forall x | x in Lower(s) ensures LowerChar(x) == x {
      var k :| 0 <= k < |s| && Lower(s)[k] == x;
    }
  }

  lemma LowerAppend(a: string, b: string)
    requires IsLower(a) && IsLower(b)
    ensures IsLower(a + b)
  {
    forall x | x in a + b ensures LowerChar(x) == x {
      assert x in a || x in b;
    }
  }

  lemma LowerFixed(s: string)
    requires IsLower(s)
    ensures Lower(s) == s
  {
    assert forall k :: 0 <= k < |s| ==> Lower(s)[k] == s[k] by {
      forall k | 0 <= k < |s| ensures Lower(s)[k] == s[k] {
        assert s[k] in s;
      }
    }
  }
}
