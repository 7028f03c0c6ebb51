/**
 * The parts of Python's `str` that tweets.py relies on, restricted to ASCII:
 * character classes, `lower`, `startswith`/`endswith`, `split()` on whitespace,
 * `split(',')`, `strip()`, string concatenation and `int()` on decimal digits.
 */
module PyStr {
  import opened Wrappers

  /** `c.isalnum()`: ASCII letters and digits. */
  predicate IsAlnum(c: char) {
    'a' <= c <= 'z' || 'A' <= c <= 'Z' || '0' <= c <= '9'
  }

  predicate IsDigit(c: char) {
    '0' <= c <= '9'
  }

  /** `c.isspace()` on ASCII: tab, line feed, vertical tab, form feed, carriage return,
      the four separator controls 0x1c-0x1f and space. */
  predicate IsSpace(c: char) {
    9 <= c as int <= 13 || 28 <= c as int <= 32
  }

  /** `s.isalnum()` on a whole string: non-empty and alphanumeric throughout. */
  predicate IsAlnumStr(s: string) {
    s != [] && forall i :: 0 <= i < |s| ==> IsAlnum(s[i])
  }

  /** `s[lo:hi]` for non-negative bounds: both are clipped to the string, and a slice
      whose start is not before its end is empty. */
  function Slice<T>(s: seq<T>, lo: nat, hi: nat): (r: seq<T>)
    ensures lo <= hi <= |s| ==> r == s[lo..hi]
    ensures lo <= |s| < hi ==> r == s[lo..]
    ensures |s| <= lo || hi <= lo ==> r == []
  {
    var h := if hi <= |s| then hi else |s|;
    if lo < h then s[lo..h] else []
  }

  /** What a cleaned word is made of: lower-case letters and digits. */
  predicate IsLowerAlnum(c: char) {
    'a' <= c <= 'z' || '0' <= c <= '9'
  }

  /** A non-empty string of lower-case letters and digits. */
  predicate IsCleanWord(w: string) {
    w != [] && forall i :: 0 <= i < |w| ==> IsLowerAlnum(w[i])
  }

  /** `c.lower()` on ASCII. */
  function Lower(c: char): (d: char)
    ensures IsAlnum(d) <==> IsAlnum(c)
    ensures IsAlnum(c) ==> IsLowerAlnum(d)
    ensures IsLowerAlnum(c) ==> d == c
  {
    if 'A' <= c <= 'Z' then (c as int + 32) as char else c
  }

  /** `s.lower()`. */
  function LowerStr(s: string): (r: string)
    ensures |r| == |s|
    ensures forall i :: 0 <= i < |s| ==> r[i] == Lower(s[i])
  {
    seq(|s|, i requires 0 <= i < |s| => Lower(s[i]))
  }

  predicate StartsWith(s: string, prefix: string) {
    |prefix| <= |s| && s[..|prefix|] == prefix
  }

  predicate EndsWith(s: string, suffix: string) {
    |suffix| <= |s| && s[|s| - |suffix|..] == suffix
  }

  /**
   * `s[:-k]`: all but the last k characters, or nothing when s is shorter.
   * As in Python, `s[:-0]` is `s[:0]`, the empty string.
   */
  function DropLast(s: string, k: nat): (r: string)
    ensures 0 < k <= |s| ==> r == s[..|s| - k]
    ensures k == 0 || |s| < k ==> r == []
  {
    if 0 < k <= |s| then s[..|s| - k] else []
  }

  // ---------------------------------------------------------------------
  // s.split(): whitespace tokenisation
  // ---------------------------------------------------------------------

  /** Length of the leading run of non-whitespace characters. */
  function RunLength(s: string): (n: nat)
    ensures n <= |s|
    ensures forall i :: 0 <= i < n ==> !IsSpace(s[i])
    ensures n == |s| || IsSpace(s[n])
  {
    if s == [] || IsSpace(s[0]) then 0 else 1 + RunLength(s[1..])
  }

  /** `s.split()`: the maximal runs of non-whitespace characters, in order. */
  function Split(s: string): seq<string>
    decreases |s|
  {
    if s == [] then []
    else if IsSpace(s[0]) then Split(s[1..])
    else
      var n := RunLength(s);
      [s[..n]] + Split(s[n..])
  }

  /** Every token is non-empty and free of whitespace. */
  predicate IsToken(t: string) {
    t != [] && forall i :: 0 <= i < |t| ==> !IsSpace(t[i])
  }

  /** The characters of s that are not whitespace, in order. */
  function NonSpace(s: string): string {
    if s == [] then [] else (if IsSpace(s[0]) then [] else [s[0]]) + NonSpace(s[1..])
  }

  /** `''.join(parts)`, accumulated left to right as `text += part` does. */
  function Concat(parts: seq<string>): string {
    if parts == [] then "" else Concat(parts[..|parts| - 1]) + parts[|parts| - 1]
  }

  lemma ConcatPrepend(a: string, parts: seq<string>)
    ensures Concat([a] + parts) == a + Concat(parts)
    decreases |parts|
  {
    if parts != [] {
      var n := |parts|;
      assert ([a] + parts)[..n] == [a] + parts[..n - 1];
      ConcatPrepend(a, parts[..n - 1]);
    }
  }

  lemma NonSpaceAppend(a: string, b: string)
    ensures NonSpace(a + b) == NonSpace(a) + NonSpace(b)
  {
    if a == [] {
      assert a + b == b;
    } else {
      assert (a + b)[0] == a[0];
      assert (a + b)[1..] == a[1..] + b;
      NonSpaceAppend(a[1..], b);
    }
  }

  /** The split of s: every token is a whitespace-free non-empty string, and the tokens
      put back together give exactly the non-whitespace characters of s, in order. */
  lemma {:induction false} SplitSpec(s: string)
    ensures forall t :: t in Split(s) ==> IsToken(t)
    ensures Concat(Split(s)) == NonSpace(s)
    decreases |s|
  {
    if s == [] {
    } else if IsSpace(s[0]) {
      SplitSpec(s[1..]);
    } else {
      var n := RunLength(s);
      SplitSpec(s[n..]);
      ConcatPrepend(s[..n], Split(s[n..]));
      assert s == s[..n] + s[n..];
      NonSpaceAppend(s[..n], s[n..]);
      NoSpaceIsFixed(s[..n]);
    }
  }

  /** The leading run of x + y is that of x when it stops inside x or y starts with whitespace. */
  lemma RunLengthAppend(x: string, y: string)
    requires RunLength(x) < |x| || y == [] || IsSpace(y[0])
    ensures RunLength(x + y) == RunLength(x)
  {
    var n := RunLength(x);
    assert forall i :: 0 <= i < n ==> !IsSpace((x + y)[i]);
    assert n == |x + y| || IsSpace((x + y)[n]);
  }

  /** Splitting works piece by piece across a cut that follows whitespace. */
  lemma {:induction false} SplitAppend(a: string, b: string)
    requires a == [] || IsSpace(a[|a| - 1])
    ensures Split(a + b) == Split(a) + Split(b)
    decreases |a|
  {
    if a == [] {
      assert a + b == b;
    } else if IsSpace(a[0]) {
      assert (a + b)[1..] == a[1..] + b;
      SplitAppend(a[1..], b);
    } else {
      var n := RunLength(a);
      assert n < |a| && a[n..][|a[n..]| - 1] == a[|a| - 1];
      RunLengthAppend(a, b);
      assert (a + b)[0] == a[0] && (a + b)[..n] == a[..n];
      assert (a + b)[n..] == a[n..] + b;
      SplitAppend(a[n..], b);
      assert Split(a + b) == [a[..n]] + Split(a[n..] + b);
    }
  }

  /** A single run of non-whitespace characters is one token, not several. */
  lemma SplitToken(s: string)
    requires IsToken(s)
    ensures Split(s) == [s]
  {
    var n := RunLength(s);
    assert n == |s|;
    assert s[..n] == s && s[n..] == [];
  }

  /** The tokens written out, each followed by one space. */
  function Spaced(ts: seq<string>): string {
    if ts == [] then "" else ts[0] + " " + Spaced(ts[1..])
  }

  /** Tokens separated by whitespace split back into exactly those tokens: runs are maximal. */
  lemma {:induction false} SplitSpaced(ts: seq<string>)
    requires forall i :: 0 <= i < |ts| ==> IsToken(ts[i])
    ensures Split(Spaced(ts)) == ts
  {
    if ts != [] {
      var a := ts[0] + " ";
      SplitSpaceEnd(ts[0], ' ');
      SplitToken(ts[0]);
      SplitAppend(a, Spaced(ts[1..]));
      SplitSpaced(ts[1..]);
      assert ts == [ts[0]] + ts[1..];
    }
  }

  /** Whitespace at the end of a string adds no token. */
  lemma {:induction false} SplitSpaceEnd(s: string, c: char)
    requires IsSpace(c)
    ensures Split(s + [c]) == Split(s)
    decreases |s|
  {
    if s == [] {
      assert [c][1..] == [];
    } else if IsSpace(s[0]) {
      assert (s + [c])[1..] == s[1..] + [c];
      SplitSpaceEnd(s[1..], c);
    } else {
      var n := RunLength(s);
      RunLengthAppend(s, [c]);
      assert (s + [c])[..n] == s[..n];
      assert (s + [c])[n..] == s[n..] + [c];
      SplitSpaceEnd(s[n..], c);
    }
  }

  lemma NoSpaceIsFixed(t: string)
    requires forall i :: 0 <= i < |t| ==> !IsSpace(t[i])
    ensures NonSpace(t) == t
  {
    if t != [] {
      NoSpaceIsFixed(t[1..]);
    }
  }

  // ---------------------------------------------------------------------
  // s.split(sep) with an explicit one-character separator
  // ---------------------------------------------------------------------

  /** `s.split(sep)`: the fields between separators, empty ones included. */
  function SplitOn(s: string, sep: char): (r: seq<string>)
    ensures |r| >= 1
  {
    if s == [] then [""]
    else
      var rest := SplitOn(s[1..], sep);
      if s[0] == sep then [""] + rest else [[s[0]] + rest[0]] + rest[1..]
  }

  /** `sep.join(fields)`. */
  function Join(fields: seq<string>, sep: char): string
    requires |fields| >= 1
  {
    if |fields| == 1 then fields[0] else fields[0] + [sep] + Join(fields[1..], sep)
  }

  /** Splitting on a separator loses nothing: joining the fields back gives s, and no
      field contains the separator. */
  lemma {:induction false} SplitOnJoin(s: string, sep: char)
    ensures Join(SplitOn(s, sep), sep) == s
    ensures forall f :: f in SplitOn(s, sep) ==> sep !in f
  {
    if s != [] {
      var rest := SplitOn(s[1..], sep);
      SplitOnJoin(s[1..], sep);
      assert s == [s[0]] + s[1..];
      if s[0] == sep {
        assert ([""] + rest)[1..] == rest;
        assert Join([""] + rest, sep) == "" + [sep] + Join(rest, sep);
      } else {
        var r := [[s[0]] + rest[0]] + rest[1..];
        if |rest| > 1 {
          assert r[1..] == rest[1..];
          assert Join(r, sep) == [s[0]] + (rest[0] + [sep] + Join(rest[1..], sep));
        }
        forall f | f in r ensures sep !in f {
          if f != r[0] {
            assert f in rest;
          }
        }
      }
    }
  }

  /** Splitting a string that starts with a separator-free part a continues the first field of the rest. */
  lemma {:induction false} SplitOnPrefix(a: string, b: string, sep: char)
    requires sep !in a
    ensures SplitOn(a + b, sep) == [a + SplitOn(b, sep)[0]] + SplitOn(b, sep)[1..]
  {
    if a != [] {
      var bs := SplitOn(b, sep);
      SplitOnPrefix(a[1..], b, sep);
      assert (a + b)[1..] == a[1..] + b;
      var rest := SplitOn(a[1..] + b, sep);
      assert rest[0] == a[1..] + bs[0] && rest[1..] == bs[1..];
      assert SplitOn(a + b, sep) == [[a[0]] + rest[0]] + rest[1..];
      assert [a[0]] + (a[1..] + bs[0]) == a + bs[0];
    } else {
      var bs := SplitOn(b, sep);
      assert a + b == b && a + bs[0] == bs[0];
      assert [bs[0]] + bs[1..] == bs;
    }
  }

  /** Joining separator-free fields and splitting the result again gives back the fields. */
  lemma {:induction false} JoinSplitOn(fields: seq<string>, sep: char)
    requires |fields| >= 1
    requires forall f :: f in fields ==> sep !in f
    ensures SplitOn(Join(fields, sep), sep) == fields
  {
    if |fields| == 1 {
      SplitOnPrefix(fields[0], "", sep);
      assert fields[0] + "" == fields[0];
    } else {
      var rest := Join(fields[1..], sep);
      JoinSplitOn(fields[1..], sep);
      assert fields[0] + [sep] + rest == fields[0] + ([sep] + rest);
      SplitOnPrefix(fields[0], [sep] + rest, sep);
      assert ([sep] + rest)[1..] == rest;
      var tail := SplitOn([sep] + rest, sep);
      assert tail == [""] + fields[1..];
      assert tail[0] == "" && tail[1..] == fields[1..];
      assert fields[0] + tail[0] == fields[0];
      assert fields == [fields[0]] + fields[1..];
    }
  }

  // ---------------------------------------------------------------------
  // s.strip()
  // ---------------------------------------------------------------------

  /** Number of leading whitespace characters. */
  function LeadingSpaces(s: string): (n: nat)
    ensures n <= |s|
  {
    if s != [] && IsSpace(s[0]) then 1 + LeadingSpaces(s[1..]) else 0
  }

  /** Number of trailing whitespace characters. */
  function TrailingSpaces(s: string): (n: nat)
    ensures n <= |s|
  {
    if s != [] && IsSpace(s[|s| - 1]) then 1 + TrailingSpaces(s[..|s| - 1]) else 0
  }

  /** `s.strip()`. */
  function Strip(s: string): string {
    var t := s[LeadingSpaces(s)..];
    t[..|t| - TrailingSpaces(t)]
  }

  lemma {:induction false} LeadingSpacesSpec(s: string)
    ensures forall i :: 0 <= i < LeadingSpaces(s) ==> IsSpace(s[i])
    ensures LeadingSpaces(s) == |s| || !IsSpace(s[LeadingSpaces(s)])
  {
    if s != [] && IsSpace(s[0]) {
      LeadingSpacesSpec(s[1..]);
    }
  }

  lemma {:induction false} TrailingSpacesSpec(s: string)
    ensures forall i :: |s| - TrailingSpaces(s) <= i < |s| ==> IsSpace(s[i])
    ensures TrailingSpaces(s) == |s| || !IsSpace(s[|s| - 1 - TrailingSpaces(s)])
  {
    if s != [] && IsSpace(s[|s| - 1]) {
      TrailingSpacesSpec(s[..|s| - 1]);
    }
  }

  /** `s.strip()` is the part of s between a whitespace-only prefix and a whitespace-only
      suffix, and it neither starts nor ends with whitespace. */
  lemma StripSpec(s: string)
    ensures var r := Strip(s);
      && (r == [] || (!IsSpace(r[0]) && !IsSpace(r[|r| - 1])))
      && exists i, j :: 0 <= i <= j <= |s| && r == s[i..j]
           && (forall k :: 0 <= k < i ==> IsSpace(s[k]))
           && (forall k :: j <= k < |s| ==> IsSpace(s[k]))
  {
    var i := LeadingSpaces(s);
    var t := s[i..];
    var n := TrailingSpaces(t);
    LeadingSpacesSpec(s);
    TrailingSpacesSpec(t);
    var j := i + |t| - n;
    assert Strip(s) == s[i..j];
    forall k | j <= k < |s| ensures IsSpace(s[k]) {
      assert s[k] == t[k - i];
    }
    if Strip(s) != [] {
      assert t[0] == s[i];
    }
  }

  /** A string without whitespace at either end is what strip() leaves of it followed by a newline. */
  lemma StripLine(s: string)
    requires s == [] || (!IsSpace(s[0]) && !IsSpace(s[|s| - 1]))
    ensures Strip(s + "\n") == s
  {
    var t := s + "\n";
    assert t[|t| - 1] == '\n' && t[..|t| - 1] == s;
    if s == [] {
      assert LeadingSpaces(t) == 1;
    } else {
      assert t[0] == s[0];
      assert t[LeadingSpaces(t)..] == t;
      assert TrailingSpaces(t) == 1;
    }
  }

  // ---------------------------------------------------------------------
  // int() on a decimal string
  // ---------------------------------------------------------------------

  predicate IsDecimal(s: string) {
    s != [] && forall i :: 0 <= i < |s| ==> IsDigit(s[i])
  }

  /** The value of a string of decimal digits, most significant first. */
  function DecimalValue(s: string): (n: nat)
    requires forall i :: 0 <= i < |s| ==> IsDigit(s[i])
  {
    if s == [] then 0
    else
      assert IsDigit(s[|s| - 1]);
      10 * DecimalValue(s[..|s| - 1]) + (s[|s| - 1] as int - '0' as int)
  }

  /** `int(s)` for a non-empty string of ASCII digits; anything else is a ValueError. */
  function ParseInt(s: string): (r: Option<int>)
    ensures r.Some? <==> IsDecimal(s)
    ensures r.Some? ==> r.value >= 0
  {
    if IsDecimal(s) then Some(DecimalValue(s)) else None
  }

  /** `str(n)` for a natural number. */
  function DecimalString(n: nat): (s: string)
    ensures IsDecimal(s)
  {
    if n < 10 then [('0' as int + n) as char]
    else DecimalString(n / 10) + [('0' as int + n % 10) as char]
  }

  /** `int(str(n)) == n`. */
  lemma {:induction false} ParseDecimalString(n: nat)
    ensures ParseInt(DecimalString(n)) == Some(n)
  {
    var s := DecimalString(n);
    if n < 10 {
      assert s[..|s| - 1] == [];
    } else {
      ParseDecimalString(n / 10);
      assert s[..|s| - 1] == DecimalString(n / 10);
      assert DecimalValue(s) == 10 * (n / 10) + n % 10;
    }
  }
}
