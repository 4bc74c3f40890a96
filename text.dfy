/** The string operations of Rust's `str` that the two core files use:
    `trim`, `split(char)`, `join`, `starts_with(char)`, `contains(&str)`,
    `String::retain` and the `Display` rendering of unsigned integers. */
module Text {
  import opened Seqs

  /** `char::is_whitespace`: the characters with the Unicode White_Space property. */
  predicate IsWhitespace(c: char) {
    || ('\t' <= c <= '\r')
    || c == ' '
    || c == '\U{85}'
    || c == '\U{A0}'
    || c == '\U{1680}'
    || ('\U{2000}' <= c <= '\U{200A}')
    || c == '\U{2028}'
    || c == '\U{2029}'
    || c == '\U{202F}'
    || c == '\U{205F}'
    || c == '\U{3000}'
  }

  /** `str::trim_start`: drops the leading whitespace and nothing else. */
  function TrimStart(s: string): (r: string)
    ensures |r| <= |s| && r == s[|s| - |r|..]
    ensures r == [] || !IsWhitespace(r[0])
    ensures forall i :: 0 <= i < |s| - |r| ==> IsWhitespace(s[i])
  {
    if s != [] && IsWhitespace(s[0]) then TrimStart(s[1..]) else s
  }

  /** `str::trim_end`: drops the trailing whitespace and nothing else. */
  function TrimEnd(s: string): (r: string)
    ensures |r| <= |s| && r == s[..|r|]
    ensures r == [] || !IsWhitespace(r[|r| - 1])
    ensures forall i :: |r| <= i < |s| ==> IsWhitespace(s[i])
  {
    if s != [] && IsWhitespace(s[|s| - 1]) then TrimEnd(s[..|s| - 1]) else s
  }

  /** Cutting leading whitespace and then trailing whitespace leaves the slice between them. */
  lemma TrimmedSlice(s: string, t: string, r: string)
    requires |t| <= |s| && t == s[|s| - |t|..]
    requires |r| <= |t| && r == t[..|r|]
    requires forall i :: |r| <= i < |t| ==> IsWhitespace(t[i])
    ensures r == s[|s| - |t|..|s| - |t| + |r|]
    ensures forall i :: |s| - |t| + |r| <= i < |s| ==> IsWhitespace(s[i])
  {
    var lo := |s| - |t|;
    forall i | lo + |r| <= i < |s|
      ensures IsWhitespace(s[i])
    {
      assert s[i] == t[i - lo];
    }
  }

  /** `str::trim`: the slice `s[lo..hi]` between the leading and the trailing whitespace. */
  function Trim(s: string): (r: string)
    ensures exists lo, hi :: 0 <= lo <= hi <= |s| && r == s[lo..hi]
                             && (forall i :: 0 <= i < lo ==> IsWhitespace(s[i]))
                             && (forall i :: hi <= i < |s| ==> IsWhitespace(s[i]))
    ensures r == [] || (!IsWhitespace(r[0]) && !IsWhitespace(r[|r| - 1]))
  {
    var t := TrimStart(s);
    var r := TrimEnd(t);
    TrimmedSlice(s, t, r);
    r
  }

  /** The bounds of the slice `trim` keeps. */
  lemma TrimBounds(s: string) returns (lo: nat, hi: nat)
    ensures lo <= hi <= |s| && Trim(s) == s[lo..hi]
    ensures forall i :: 0 <= i < lo ==> IsWhitespace(s[i])
    ensures forall i :: hi <= i < |s| ==> IsWhitespace(s[i])
  {
    var t := TrimStart(s);
    var r := TrimEnd(t);
    TrimmedSlice(s, t, r);
    lo, hi := |s| - |t|, |s| - |t| + |r|;
    assert Trim(s) == r;
  }

  /** Trimming brings in no character that was not there. */
  lemma TrimKeepsCharacters(s: string)
    ensures forall x :: x in Trim(s) ==> x in s
  {
    var t := TrimStart(s);
    var r := TrimEnd(t);
    assert Trim(s) == r;
    forall x | x in r
      ensures x in s
    {
      var i :| 0 <= i < |r| && r[i] == x;
      assert t[i] == x;
      assert s[|s| - |t| + i] == x;
    }
  }

  /** `str::starts_with(c)` for a `char` pattern. */
  predicate StartsWith(s: string, c: char) {
    |s| > 0 && s[0] == c
  }

  /** `str::starts_with(p)` for a string pattern. */
  predicate HasPrefix(s: string, p: string) {
    |p| <= |s| && s[..|p|] == p
  }

  /** `str::contains(p)` for a string pattern: `p` occurs at some offset of `s`. */
  predicate HasSubstring(s: string, p: string)
    decreases |s|
  {
    HasPrefix(s, p) || (s != [] && HasSubstring(s[1..], p))
  }

  /** A pattern holding a character that the text lacks does not occur in it. */
  lemma {:induction false} NoSubstringWithout(s: string, p: string, i: nat)
    requires i < |p| && p[i] !in s
    ensures !HasSubstring(s, p)
    decreases |s|
  {
    if |p| <= |s| {
      assert s[..|p|][i] == s[i];
    }
    if s != [] {
      assert forall x :: x in s[1..] ==> x in s;
      NoSubstringWithout(s[1..], p, i);
    }
  }

  /** `String::retain(|ch| ch != c)`: every `c` removed, the rest in order. */
  function RemoveAll(s: string, c: char): (r: string)
    ensures c !in r
    ensures forall x :: x in r <==> x in s && x != c
    ensures |r| <= |s|
  {
    if s == [] then []
    else RemoveAll(s[..|s| - 1], c) + (if s[|s| - 1] == c then [] else [s[|s| - 1]])
  }

  /** One character is dropped when it is `c` and kept otherwise. */
  lemma RemoveAllOne(x: char, c: char)
    ensures RemoveAll([x], c) == (if x == c then [] else [x])
  {
    assert [x][..0] == [];
  }

  /** `retain` works character by character: the kept characters of a concatenation are
      those of its first part followed by those of its second, so order and repeats are kept. */
  lemma {:induction false} RemoveAllAppend(a: string, b: string, c: char)
    ensures RemoveAll(a + b, c) == RemoveAll(a, c) + RemoveAll(b, c)
    decreases |b|
  {
    if b == [] {
      assert a + b == a;
    } else {
      var front := b[..|b| - 1];
      assert (a + b)[..|a + b| - 1] == a + front;
      RemoveAllAppend(a, front, c);
    }
  }

  /** `str::split(sep)` for a `char` separator: the pieces between separators, empty pieces
      included, so there is always at least one piece and no piece holds `sep`. */
  function Split(s: string, sep: char): (r: seq<string>)
    ensures |r| >= 1
    ensures forall i :: 0 <= i < |r| ==> sep !in r[i]
    decreases |s|
  {
    if sep !in s then [s]
    else
      var i := IndexOf(s, sep);
      [s[..i]] + Split(s[i + 1..], sep)
  }

  /** `[String]::join(sep)`: the parts with `sep` between neighbours. */
  function Join(parts: seq<string>, sep: string): string
  {
    if |parts| == 0 then ""
    else if |parts| == 1 then parts[0]
    else parts[0] + sep + Join(parts[1..], sep)
  }

  /** Joining the pieces of a split with the same separator gives back the string. */
  lemma {:induction false} JoinSplit(s: string, sep: char)
    ensures Join(Split(s, sep), [sep]) == s
    decreases |s|
  {
    if sep in s {
      var i := IndexOf(s, sep);
      var head, rest := s[..i], Split(s[i + 1..], sep);
      JoinSplit(s[i + 1..], sep);
      var parts := [head] + rest;
      assert Split(s, sep) == parts;
      assert parts[1..] == rest;
      assert Join(parts, [sep]) == head + [sep] + Join(rest, [sep]);
      assert s == head + [s[i]] + s[i + 1..];
    }
  }

  /** Splitting parts joined by a separator that none of them holds gives back the parts. */
  lemma {:induction false} SplitJoin(parts: seq<string>, sep: char)
    requires |parts| >= 1
    requires forall i :: 0 <= i < |parts| ==> sep !in parts[i]
    ensures Split(Join(parts, [sep]), sep) == parts
  {
    if |parts| > 1 {
      var head, rest := parts[0], parts[1..];
      assert Join(parts, [sep]) == head + [sep] + Join(rest, [sep]);
      assert sep !in head;
      SplitAtFirst(head, Join(rest, [sep]), sep);
      assert forall i :: 0 <= i < |rest| ==> sep !in rest[i] by {
        forall i | 0 <= i < |rest|
          ensures sep !in rest[i]
        {
          assert rest[i] == parts[i + 1];
        }
      }
      SplitJoin(rest, sep);
      assert parts == [head] + rest;
    }
  }

  /** Splitting at the first separator: the piece before it, then the pieces after it. */
  lemma SplitAtFirst(head: string, tail: string, sep: char)
    requires sep !in head
    ensures Split(head + [sep] + tail, sep) == [head] + Split(tail, sep)
  {
    var s := head + [sep] + tail;
    assert s[..|head|] == head;
    assert s[|head|] == sep;
    assert sep in s && IndexOf(s, sep) == |head|;
    assert s[|head| + 1..] == tail;
  }

  predicate IsDigit(c: char) {
    '0' <= c <= '9'
  }

  function DigitChar(d: nat): (c: char)
    requires d < 10
    ensures IsDigit(c)
  {
    ('0' as int + d) as char
  }

  function DigitValue(c: char): (d: nat)
    requires IsDigit(c)
    ensures d < 10 && DigitChar(d) == c
  {
    c as int - '0' as int
  }

  /** `ToString::to_string` of an unsigned integer: its decimal digits, most significant first,
      with a leading `0` only for zero itself. */
  function Decimal(n: nat): (r: string)
    ensures |r| >= 1
    ensures forall i :: 0 <= i < |r| ==> IsDigit(r[i])
    ensures r[0] == '0' <==> n == 0
  {
    if n < 10 then [DigitChar(n)] else Decimal(n / 10) + [DigitChar(n % 10)]
  }

  /** The number a string of decimal digits denotes. */
  function DecimalValue(s: string): nat
    requires forall i :: 0 <= i < |s| ==> IsDigit(s[i])
  {
    if s == [] then 0 else 10 * DecimalValue(s[..|s| - 1]) + DigitValue(s[|s| - 1])
  }

  /** Reading back the decimal rendering of `n` gives `n`. */
  lemma {:induction false} DecimalRoundTrip(n: nat)
    ensures DecimalValue(Decimal(n)) == n
  {
    if n >= 10 {
      DecimalRoundTrip(n / 10);
      var r := Decimal(n);
      assert r[..|r| - 1] == Decimal(n / 10);
    }
  }
}
