/** The pieces of Rust's `core::fmt` and `str` that the matrix renderers use, as
    functions on `string` (a sequence of Unicode scalar values, like Rust's `char`):
    decimal rendering of `usize`, `str::len` (a UTF-8 byte count), right
    alignment `{:>width$}` (which counts characters), `str::split`,
    `str::lines` and `str::contains`. */
module Strings {

  function Max(a: nat, b: nat): (m: nat)
    ensures m >= a && m >= b && (m == a || m == b)
  {
    if a < b then b else a
  }

  function Min(a: nat, b: nat): (m: nat)
    ensures m <= a && m <= b && (m == a || m == b)
  {
    if a < b then a else b
  }

  /** A non-empty sequence is its front followed by its last element.
      Dafny's own
      sequence axioms prove it; it stands apart so that the prover meets it
      as a small goal, not inside a large context. */
  lemma InitLast<X>(s: seq<X>)
    requires |s| > 0
    ensures s[..|s| - 1] + [s[|s| - 1]] == s
  {
  }

  /** Regrouping a four-part concatenation. Dafny's own
      sequence axioms prove it; it stands apart so that the prover meets it
      as a small goal, not inside a large context. */
  lemma Regroup(a: string, b: string, c: string, d: string)
    ensures a + b + c + d == (a + b) + (c + d)
  {
  }

  /** Right-associating a four-part concatenation. Dafny's own
      sequence axioms prove it; it stands apart so that the prover meets it
      as a small goal, not inside a large context. */
  lemma Assoc(a: string, b: string, c: string, d: string)
    ensures a + b + c + d == a + (b + c + d)
  {
  }

  // ---------------------------------------------------------------------------
  // Decimal rendering of an unsigned integer (`{}` on a `usize`)

  predicate IsDigit(c: char) {
    '0' <= c <= '9'
  }

  predicate AllDigits(s: string) {
    forall i | 0 <= i < |s| :: IsDigit(s[i])
  }

  function DigitChar(d: nat): (c: char)
    requires d < 10
    ensures IsDigit(c) && c as int - '0' as int == d
  {
    ('0' as int + d) as char
  }

  /** The decimal digits of n, most significant first, with no leading zero. */
  function NatToString(n: nat): (s: string)
    ensures |s| >= 1 && AllDigits(s)
    ensures s[0] == '0' ==> n == 0
    decreases n
  {
    if n < 10 then [DigitChar(n)] else NatToString(n / 10) + [DigitChar(n % 10)]
  }

  /** The number a string of decimal digits denotes; the inverse of NatToString. */
  function ParseDecimal(s: string): nat
    requires AllDigits(s)
    decreases |s|
  {
    if s == [] then 0 else 10 * ParseDecimal(s[..|s| - 1]) + (s[|s| - 1] as int - '0' as int)
  }

  lemma {:induction false} ParseNatToString(n: nat)
    ensures ParseDecimal(NatToString(n)) == n
    decreases n
  {
    if n >= 10 {
      var s := NatToString(n);
      assert s[..|s| - 1] == NatToString(n / 10);
      ParseNatToString(n / 10);
    }
  }

  // ---------------------------------------------------------------------------
  // `str::len`: the length of the UTF-8 encoding, in bytes

  /** Bytes in the UTF-8 encoding of one Unicode scalar value. */
  function Utf8Width(c: char): (k: nat)
    ensures 1 <= k <= 4
    ensures k == 1 <==> c as int < 0x80
  {
    if c as int < 0x80 then 1
    else if c as int < 0x800 then 2
    else if c as int < 0x1_0000 then 3
    else 4
  }

  /** `s.len()` in Rust: never less than the number of characters, and equal to
      it exactly when every character is ASCII. */
  function Utf8Len(s: string): (n: nat)
    ensures |s| <= n <= 4 * |s|
    decreases |s|
  {
    if s == [] then 0 else Utf8Len(s[..|s| - 1]) + Utf8Width(s[|s| - 1])
  }

  /** The byte length is the character count exactly for pure ASCII. */
  lemma {:induction false} Utf8LenAscii(s: string)
    ensures Utf8Len(s) == |s| <==> forall i | 0 <= i < |s| :: s[i] as int < 0x80
    decreases |s|
  {
    if s != [] {
      var init := s[..|s| - 1];
      Utf8LenAscii(init);
      assert forall i | 0 <= i < |init| :: init[i] == s[i];
    }
  }

  // ---------------------------------------------------------------------------
  // Right alignment `{:>width$}`

  function Spaces(n: nat): (s: string)
    ensures |s| == n && forall i | 0 <= i < n :: s[i] == ' '
  {
    seq(n, _ => ' ')
  }

  /** `format!("{:>width$}", s)`: s right-aligned in a field of `width`
      characters, filled with spaces on the left; a string already at least
      `width` characters long is written unchanged. */
  function PadLeft(s: string, width: nat): (r: string)
    ensures |r| == Max(|s|, width)
    ensures r == Spaces(|r| - |s|) + s
  {
    if |s| < width then Spaces(width - |s|) + s else s
  }

  // ---------------------------------------------------------------------------
  // `str::split` on one character, and its inverse

  /** The pieces of s between occurrences of sep, in order: `s.split(sep)`.
      There is always at least one piece and no piece contains sep. */
  function Split(s: string, sep: char): (parts: seq<string>)
    ensures |parts| >= 1
    ensures forall i | 0 <= i < |parts| :: sep !in parts[i]
    decreases |s|
  {
    if s == [] then [""]
    else
      var rest := Split(s[1..], sep);
      if s[0] == sep then [""] + rest
      else [[s[0]] + rest[0]] + rest[1..]
  }

  /** The pieces put back together with sep between neighbours. */
  function Join(parts: seq<string>, sep: char): string
    requires |parts| >= 1
    decreases |parts|
  {
    if |parts| == 1 then parts[0] else parts[0] + [sep] + Join(parts[1..], sep)
  }

  lemma {:induction false} JoinSplit(s: string, sep: char)
    ensures Join(Split(s, sep), sep) == s
    decreases |s|
  {
    if s != [] {
      var rest := Split(s[1..], sep);
      JoinSplit(s[1..], sep);
      if s[0] == sep {
        assert ([""] + rest)[1..] == rest;
      } else {
        var parts := [[s[0]] + rest[0]] + rest[1..];
        if |rest| > 1 {
          assert parts[1..] == rest[1..];
        }
      }
    }
  }

  lemma {:induction false} SplitNoSep(s: string, sep: char)
    requires sep !in s
    ensures Split(s, sep) == [s]
    decreases |s|
  {
    if s != [] {
      SplitNoSep(s[1..], sep);
      assert [s[0]] + s[1..] == s;
    }
  }

  /** Splitting at one separator splits the two sides independently. */
  lemma {:induction false} SplitAtSep(a: string, b: string, sep: char)
    ensures Split(a + [sep] + b, sep) == Split(a, sep) + Split(b, sep)
    decreases |a|
  {
    var s := a + [sep] + b;
    if a == [] {
      assert s[1..] == b;
    } else {
      assert s[1..] == a[1..] + [sep] + b;
      SplitAtSep(a[1..], b, sep);
    }
  }

  lemma {:induction false} SplitJoin(parts: seq<string>, sep: char)
    requires |parts| >= 1
    requires forall i | 0 <= i < |parts| :: sep !in parts[i]
    ensures Split(Join(parts, sep), sep) == parts
    decreases |parts|
  {
    if |parts| == 1 {
      SplitNoSep(parts[0], sep);
    } else {
      SplitJoin(parts[1..], sep);
      SplitAtSep(parts[0], Join(parts[1..], sep), sep);
      SplitNoSep(parts[0], sep);
      assert [parts[0]] + parts[1..] == parts;
    }
  }

  /** Splitting k spaces and then a space-free word gives k empty pieces and
      then the word. */
  lemma {:induction false} SplitPadded(k: nat, t: string)
    requires ' ' !in t
    ensures Split(Spaces(k) + t, ' ') == seq(k, _ => "") + [t]
    decreases k
  {
    if k == 0 {
      assert Spaces(k) + t == t;
      SplitNoSep(t, ' ');
    } else {
      assert Spaces(k) + t == [] + [' '] + (Spaces(k - 1) + t);
      SplitAtSep([], Spaces(k - 1) + t, ' ');
      SplitPadded(k - 1, t);
      assert Split([], ' ') == [""];
      assert [""] + seq(k - 1, _ => "") == seq(k, _ => "");
    }
  }

  /** `.filter(|t| !t.is_empty())`: the pieces that are not empty, in order. */
  function DropEmpty(parts: seq<string>): (r: seq<string>)
    ensures |r| <= |parts|
    ensures forall i | 0 <= i < |r| :: r[i] != "" && r[i] in parts
    decreases |parts|
  {
    if parts == [] then []
    else if parts[0] == "" then DropEmpty(parts[1..])
    else [parts[0]] + DropEmpty(parts[1..])
  }

  lemma {:induction false} DropEmptyConcat(a: seq<string>, b: seq<string>)
    ensures DropEmpty(a + b) == DropEmpty(a) + DropEmpty(b)
    decreases |a|
  {
    if a == [] {
      assert a + b == b;
    } else {
      assert (a + b)[0] == a[0];
      assert (a + b)[1..] == a[1..] + b;
      DropEmptyConcat(a[1..], b);
    }
  }

  lemma {:induction false} DropEmptyBlanks(k: nat)
    ensures DropEmpty(seq(k, _ => "")) == []
    decreases k
  {
    if k > 0 {
      assert seq(k, _ => "")[1..] == seq(k - 1, _ => "");
      DropEmptyBlanks(k - 1);
    }
  }

  // ---------------------------------------------------------------------------
  // Lines: `writeln!` terminates each line with '\n'; `str::lines` reads them back

  /** The text that writes every line of ls followed by '\n', in order. */
  function Unlines(ls: seq<string>): string
    decreases |ls|
  {
    if ls == [] then "" else Unlines(ls[..|ls| - 1]) + ls[|ls| - 1] + "\n"
  }

  /** `s.lines()`: the pieces between '\n' characters, where a final '\n'
      does not start one more (empty) line. */
  function Lines(s: string): seq<string> {
    var parts := Split(s, '\n');
    if parts[|parts| - 1] == "" then parts[..|parts| - 1] else parts
  }

  predicate NoNewline(ls: seq<string>) {
    forall i | 0 <= i < |ls| :: '\n' !in ls[i]
  }

  lemma {:induction false} SplitUnlines(ls: seq<string>, t: string)
    requires NoNewline(ls) && '\n' !in t
    ensures Split(Unlines(ls) + t, '\n') == ls + [t]
    decreases |ls|
  {
    if ls == [] {
      assert Unlines(ls) + t == t;
      SplitNoSep(t, '\n');
    } else {
      var init, last := ls[..|ls| - 1], ls[|ls| - 1];
      assert Unlines(ls) + t == (Unlines(init) + last) + ['\n'] + t;
      SplitAtSep(Unlines(init) + last, t, '\n');
      SplitUnlines(init, last);
      SplitNoSep(t, '\n');
      assert init + [last] == ls;
    }
  }

  /** Reading back the lines of a text written line by line gives the lines
      that were written, provided none of them contains a '\n'. */
  lemma LinesOfUnlines(ls: seq<string>)
    requires NoNewline(ls)
    ensures Lines(Unlines(ls)) == ls
  {
    SplitUnlines(ls, "");
    assert Unlines(ls) + "" == Unlines(ls);
    assert (ls + [""])[..|ls|] == ls;
  }

  lemma UnlinesSnoc(ls: seq<string>, l: string)
    ensures Unlines(ls + [l]) == Unlines(ls) + l + "\n"
  {
    assert (ls + [l])[..|ls|] == ls;
  }

  lemma PrefixOccurs(p: string, x: string)
    ensures OccursAt(p + x, p, 0)
  {
    assert (p + x)[..|p|] == p;
  }

  lemma UnlinesOne(l: string)
    ensures Unlines([l]) == l + "\n"
  {
    assert [l][..0] == [];
  }

  lemma {:induction false} UnlinesFirst(ls: seq<string>)
    requires |ls| > 0
    ensures Unlines(ls) == ls[0] + "\n" + Unlines(ls[1..])
    decreases |ls|
  {
    if |ls| == 1 {
      UnlinesOne(ls[0]);
      assert ls[1..] == [];
    } else {
      var init := ls[..|ls| - 1];
      UnlinesFirst(init);
      assert init[0] == ls[0];
      assert init[1..] == ls[1..][..|ls| - 2];
      assert ls[1..][|ls| - 2] == ls[|ls| - 1];
    }
  }

  /** A decimal numeral contains no character other than digits. */
  lemma {:induction false} DigitsWithout(s: string, ch: char)
    requires AllDigits(s) && !IsDigit(ch)
    ensures ch !in s
  {
    forall i | 0 <= i < |s| ensures s[i] != ch {
      assert IsDigit(s[i]);
    }
  }

  // ---------------------------------------------------------------------------
  // `str::contains`

  predicate OccursAt(s: string, p: string, i: nat) {
    i + |p| <= |s| && s[i..i + |p|] == p
  }

  /** `s.contains(p)`. */
  predicate Occurs(s: string, p: string) {
    exists i: nat | i <= |s| :: OccursAt(s, p, i)
  }

  lemma OccursAtChars(s: string, p: string, i: nat)
    ensures OccursAt(s, p, i) <==> i + |p| <= |s| && forall k | 0 <= k < |p| :: s[i + k] == p[k]
  {
    if i + |p| <= |s| && forall k | 0 <= k < |p| :: s[i + k] == p[k] {
      assert s[i..i + |p|] == p;
    }
  }

  /** A place where the first three characters of p do not match. */
  lemma NotAt3(s: string, p: string, i: nat)
    requires |p| >= 3
    requires i + |p| <= |s| ==> s[i] != p[0] || s[i + 1] != p[1] || s[i + 2] != p[2]
    ensures !OccursAt(s, p, i)
  {
    OccursAtChars(s, p, i);
  }

  /** p does not occur in s: checked at every position by its first three characters. */
  lemma Absent3(s: string, p: string)
    requires |p| >= 3
    requires forall i | 0 <= i && i + 2 < |s| :: s[i] != p[0] || s[i + 1] != p[1] || s[i + 2] != p[2]
    ensures !Occurs(s, p)
  {
    forall i: nat | i <= |s| ensures !OccursAt(s, p, i) {
      NotAt3(s, p, i);
    }
  }

  lemma OccursIn(a: string, p: string, b: string)
    ensures OccursAt(a + p + b, p, |a|)
  {
    assert (a + p + b)[|a|..|a| + |p|] == p;
  }

  /** An occurrence of p contains an occurrence of every infix q of p. */
  lemma OccursInfix(s: string, p: string, q: string, j: nat)
    requires OccursAt(p, q, j)
    ensures Occurs(s, p) ==> Occurs(s, q)
  {
    if Occurs(s, p) {
      var i: nat :| i <= |s| && OccursAt(s, p, i);
      OccursAtChars(s, p, i);
      OccursAtChars(p, q, j);
      OccursAtChars(s, q, i + j);
      assert OccursAt(s, q, i + j);
    }
  }

  /** An occurrence of p that overlaps the non-empty middle d of a + d + b
      shares a character with d. */
  lemma OverlapShares(a: string, d: string, b: string, p: string, i: nat)
    requires |d| > 0 && |p| > 0
    requires OccursAt(a + d + b, p, i)
    ensures i + |p| <= |a| || |a| + |d| <= i || exists k | 0 <= k < |p| :: p[k] in d
  {
    if |a| < i + |p| && i < |a| + |d| {
      var s := a + d + b;
      OccursAtChars(s, p, i);
      var j := if i < |a| then |a| else i;
      assert s[j] == p[j - i] && s[j] == d[j - |a|];
      assert p[j - i] in d;
    }
  }

  /** An occurrence of p in a + d + b that cannot share a character with
      the non-empty middle d lies wholly in a or wholly in b. */
  lemma OccursAcross(a: string, d: string, b: string, p: string)
    requires |d| > 0 && |p| > 0
    requires forall k | 0 <= k < |p| :: p[k] !in d
    ensures Occurs(a + d + b, p) ==> Occurs(a, p) || Occurs(b, p)
  {
    var s := a + d + b;
    if Occurs(s, p) {
      var i: nat :| i <= |s| && OccursAt(s, p, i);
      OverlapShares(a, d, b, p, i);
      OccursAtChars(s, p, i);
      if i + |p| <= |a| {
        OccursAtChars(a, p, i);
        assert OccursAt(a, p, i);
      } else {
        var i' := i - |a| - |d|;
        OccursAtChars(b, p, i');
        assert OccursAt(b, p, i');
      }
    }
  }

  /** t is a suffix of s: `s.ends_with(t)`. */
  predicate EndsWith(s: string, t: string) {
    |t| <= |s| && s[|s| - |t|..] == t
  }

  lemma EndsWithAppend(a: string, t: string)
    ensures EndsWith(a + t, t)
  {
    assert (a + t)[|a|..] == t;
  }

  /** A string ending with t contains every character of t. */
  lemma EndsWithHas(s: string, t: string, k: nat)
    requires k < |t|
    ensures EndsWith(s, t) ==> t[k] in s
  {
    if EndsWith(s, t) {
      assert s[|s| - |t| + k] == t[k];
    }
  }
}
