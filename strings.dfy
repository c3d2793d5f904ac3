/**
 * Character classes and string operations of the JavaScript runtime that the
 * extension relies on (`trim`, `split`, `join`, `toLowerCase`, global
 * `replace`), written over `seq<char>`.
 */
module Strings {

  /** JavaScript's `\s` class, which is also the set `String.prototype.trim` removes. */
  predicate IsWhitespace(c: char) {
    var n := c as int;
    (0x09 <= n <= 0x0D) || n == 0x20 || n == 0xA0 || n == 0x1680 ||
    (0x2000 <= n <= 0x200A) || n == 0x2028 || n == 0x2029 || n == 0x202F ||
    n == 0x205F || n == 0x3000 || n == 0xFEFF
  }

  predicate IsLower(c: char) { 'a' as int <= c as int <= 'z' as int }
  predicate IsUpper(c: char) { 'A' as int <= c as int <= 'Z' as int }
  predicate IsDigit(c: char) { '0' as int <= c as int <= '9' as int }
  predicate IsLetter(c: char) { IsLower(c) || IsUpper(c) }
  predicate IsAlnum(c: char) { IsLetter(c) || IsDigit(c) }

  predicate AllWhitespace(s: string) {
    forall i :: 0 <= i < |s| ==> IsWhitespace(s[i])
  }

  predicate HasWhitespace(s: string) {
    exists i :: 0 <= i < |s| && IsWhitespace(s[i])
  }

  /** No whitespace at either end. */
  predicate Unpadded(s: string) {
    s == [] || (!IsWhitespace(s[0]) && !IsWhitespace(s[|s| - 1]))
  }

  /** No two whitespace characters side by side. */
  predicate NoDoubleWhitespace(s: string) {
    forall i :: 0 <= i < |s| - 1 ==> !(IsWhitespace(s[i]) && IsWhitespace(s[i + 1]))
  }

  /** `String.prototype.trimStart`. */
  function TrimStart(s: string): (r: string)
    ensures |r| <= |s|
    ensures s != [] && IsWhitespace(s[0]) ==> |r| < |s|
  {
    if s != [] && IsWhitespace(s[0]) then TrimStart(s[1..]) else s
  }

  /** `TrimStart` drops a run of whitespace from the front and stops at the first other character. */
  lemma {:induction false} TrimStartShape(s: string)
    ensures TrimStart(s) == s[|s| - |TrimStart(s)|..]
    ensures AllWhitespace(s[..|s| - |TrimStart(s)|])
    ensures TrimStart(s) != [] ==> !IsWhitespace(TrimStart(s)[0])
  {
    if s != [] && IsWhitespace(s[0]) {
      TrimStartShape(s[1..]);
      var d := |s| - |TrimStart(s)|;
      assert s[1..][d - 1..] == s[d..];
      assert forall i :: 1 <= i < d ==> s[..d][i] == s[1..][..d - 1][i - 1];
    }
  }

  /** `String.prototype.trimEnd`. */
  function TrimEnd(s: string): (r: string)
    ensures |r| <= |s|
  {
    if s != [] && IsWhitespace(s[|s| - 1]) then TrimEnd(s[..|s| - 1]) else s
  }

  /** `TrimEnd` drops a run of whitespace from the back and stops at the last other character. */
  lemma {:induction false} TrimEndShape(s: string)
    ensures TrimEnd(s) == s[..|TrimEnd(s)|]
    ensures AllWhitespace(s[|TrimEnd(s)|..])
    ensures TrimEnd(s) != [] ==> !IsWhitespace(TrimEnd(s)[|TrimEnd(s)| - 1])
  {
    if s != [] && IsWhitespace(s[|s| - 1]) {
      var p := s[..|s| - 1];
      TrimEndShape(p);
      var n := |TrimEnd(s)|;
      assert p[..n] == s[..n];
      assert forall i :: n <= i < |s| - 1 ==> s[i] == p[i];
    }
  }

  /** `String.prototype.trim`: `s` with its leading and trailing whitespace removed. */
  function Trim(s: string): (r: string)
    ensures |r| <= |s|
  {
    TrimEnd(TrimStart(s))
  }

  /** What trimming keeps: one contiguous piece of `s`, with only whitespace around it and none at its ends. */
  lemma TrimShape(s: string) returns (a: nat)
    ensures a + |Trim(s)| <= |s| && Trim(s) == s[a..a + |Trim(s)|]
    ensures AllWhitespace(s[..a]) && AllWhitespace(s[a + |Trim(s)|..])
    ensures Unpadded(Trim(s))
    ensures Trim(s) == [] <==> AllWhitespace(s)
  {
    var t := TrimStart(s);
    var r := TrimEnd(t);
    TrimStartShape(s);
    TrimEndShape(t);
    assert r == Trim(s);
    a := |s| - |t|;
    assert r == t[..|r|] == s[a..a + |r|];
    assert s[a + |r|..] == t[|r|..];
    if r == [] {
      assert t == [];
      assert s[..a] == s;
    } else {
      assert !IsWhitespace(r[0]) by { assert r[0] == t[0]; }
      assert r[0] == s[a];
    }
  }

  /** The result of trimming has no whitespace at either end. */
  lemma TrimUnpadded(s: string)
    ensures Unpadded(Trim(s))
  {
    var _ := TrimShape(s);
  }

  lemma TrimOfUnpadded(s: string)
    requires Unpadded(s)
    ensures Trim(s) == s
  {
  }

  lemma TrimIdempotent(s: string)
    ensures Trim(Trim(s)) == Trim(s)
  {
    TrimUnpadded(s);
    TrimOfUnpadded(Trim(s));
  }

  /**
   * The characters of `s` that are neither whitespace nor in `X`, in order:
   * what a rewrite that only moves whitespace or deletes characters of `X` keeps.
   */
  function Strip(s: string, X: set<char>): string {
    if s == [] then []
    else (if IsWhitespace(s[0]) || s[0] in X then [] else [s[0]]) + Strip(s[1..], X)
  }

  lemma {:induction false} StripAppend(a: string, b: string, X: set<char>)
    ensures Strip(a + b, X) == Strip(a, X) + Strip(b, X)
  {
    if a == [] {
      assert a + b == b;
    } else {
      assert (a + b)[0] == a[0];
      assert (a + b)[1..] == a[1..] + b;
      StripAppend(a[1..], b, X);
    }
  }

  lemma {:induction false} StripWhitespace(s: string, X: set<char>)
    requires AllWhitespace(s)
    ensures Strip(s, X) == []
  {
    if s != [] {
      StripWhitespace(s[1..], X);
    }
  }

  lemma StripTrim(s: string, X: set<char>)
    ensures Strip(Trim(s), X) == Strip(s, X)
  {
    var r := Trim(s);
    var a := TrimShape(s);
    var head, tail := s[..a], s[a + |r|..];
    assert s == head + r + tail by {
      assert s == s[..a] + s[a..a + |r|] + s[a + |r|..];
    }
    StripAppend(head + r, tail, X);
    StripAppend(head, r, X);
    StripWhitespace(head, X);
    StripWhitespace(tail, X);
    assert Strip(head + r, X) == Strip(r, X);
  }

  /** `s.split(sep)` for a one-character separator. */
  function Split(s: string, sep: char): (parts: seq<string>)
    ensures |parts| >= 1
    ensures forall i :: 0 <= i < |parts| ==> sep !in parts[i]
  {
    if s == [] then [[]]
    else
      var rest := Split(s[1..], sep);
      if s[0] == sep then [[]] + rest
      else [[s[0]] + rest[0]] + rest[1..]
  }

  /** `parts.join(sep)`. */
  function Join(parts: seq<string>, sep: string): string {
    if |parts| == 0 then []
    else if |parts| == 1 then parts[0]
    else parts[0] + sep + Join(parts[1..], sep)
  }

  lemma JoinCons(p: string, ps: seq<string>, sep: string)
    requires ps != []
    ensures Join([p] + ps, sep) == p + sep + Join(ps, sep)
  {
    assert ([p] + ps)[1..] == ps;
  }

  lemma {:induction false} JoinAppend(ps: seq<string>, q: string, sep: string)
    requires ps != []
    ensures Join(ps + [q], sep) == Join(ps, sep) + sep + q
  {
    if |ps| == 1 {
      assert ps + [q] == [ps[0]] + [q];
      JoinCons(ps[0], [q], sep);
    } else {
      assert ps + [q] == [ps[0]] + (ps[1..] + [q]);
      JoinCons(ps[0], ps[1..] + [q], sep);
      JoinAppend(ps[1..], q, sep);
      JoinCons(ps[0], ps[1..], sep);
    }
  }

  /** Where `parts[i]` starts inside `Join(parts, sep)`. */
  function JoinOffset(parts: seq<string>, sep: string, i: nat): nat
    requires i < |parts|
  {
    if i == 0 then 0 else |parts[0]| + |sep| + JoinOffset(parts[1..], sep, i - 1)
  }

  /** Each part occurs in the joined text at its offset. */
  lemma {:induction false} JoinIsAt(parts: seq<string>, sep: string, i: nat)
    requires i < |parts|
    ensures IsAt(Join(parts, sep), parts[i], JoinOffset(parts, sep, i))
  {
    var rest := Join(parts[1..], sep);
    if |parts| == 1 {
      assert IsAt(parts[0], parts[0], 0);
    } else if i == 0 {
      assert IsAt(parts[0], parts[0], 0);
      IsAtAppendLeft(parts[0], sep + rest, parts[0], 0);
      assert Join(parts, sep) == parts[0] + (sep + rest);
    } else {
      JoinIsAt(parts[1..], sep, i - 1);
      IsAtAppendRight(parts[0] + sep, rest, parts[1..][i - 1], JoinOffset(parts[1..], sep, i - 1));
    }
  }

  /** The next part starts one separator after the end of the previous one. */
  lemma {:induction false} JoinOffsetNext(parts: seq<string>, sep: string, i: nat)
    requires i + 1 < |parts|
    ensures JoinOffset(parts, sep, i + 1) == JoinOffset(parts, sep, i) + |parts[i]| + |sep|
  {
    if i > 0 {
      JoinOffsetNext(parts[1..], sep, i - 1);
    }
  }

  /** With a non-empty separator, later parts start strictly after earlier parts end. */
  lemma {:induction false} JoinOffsetOrdered(parts: seq<string>, sep: string, i: nat, j: nat)
    requires i < j < |parts| && sep != []
    ensures JoinOffset(parts, sep, i) + |parts[i]| < JoinOffset(parts, sep, j)
    decreases j - i
  {
    JoinOffsetNext(parts, sep, i);
    if i + 1 < j {
      JoinOffsetOrdered(parts, sep, i + 1, j);
    }
  }

  /** Joining `n` parts that each hold `k` copies of `c`, with a separator holding none. */
  lemma {:induction false} JoinCountUniform(parts: seq<string>, sep: string, c: char, k: nat)
    requires forall i :: 0 <= i < |parts| ==> Count(parts[i], c) == k
    requires c !in sep
    ensures Count(Join(parts, sep), c) == |parts| * k
  {
    if |parts| > 1 {
      var head, rest := parts[0], Join(parts[1..], sep);
      assert Join(parts, sep) == head + sep + rest;
      assert Count(rest, c) == (|parts| - 1) * k by { JoinCountUniform(parts[1..], sep, c, k); }
      assert Count(sep, c) == 0 by { CountAbsent(sep, c); }
      assert Count(head + sep + rest, c) == Count(head, c) + Count(sep, c) + Count(rest, c) by {
        CountAppend(head + sep, rest, c);
        CountAppend(head, sep, c);
      }
    }
  }

  /** Splitting and joining back with the same separator gives the original text. */
  lemma {:induction false} JoinSplit(s: string, sep: char)
    ensures Join(Split(s, sep), [sep]) == s
  {
    if s != [] {
      var rest := Split(s[1..], sep);
      JoinSplit(s[1..], sep);
      if s[0] == sep {
        JoinCons([], rest, [sep]);
      } else if |rest| == 1 {
        assert Split(s, sep) == [[s[0]] + rest[0]];
      } else {
        assert rest == [rest[0]] + rest[1..];
        JoinCons(rest[0], rest[1..], [sep]);
        JoinCons([s[0]] + rest[0], rest[1..], [sep]);
      }
    }
  }

  lemma {:induction false} SplitPrefix(a: string, b: string, sep: char)
    requires sep !in a
    ensures Split(a + b, sep) == [a + Split(b, sep)[0]] + Split(b, sep)[1..]
  {
    if a != [] {
      assert (a + b)[0] == a[0] != sep;
      assert (a + b)[1..] == a[1..] + b;
      SplitPrefix(a[1..], b, sep);
      var parts := Split(b, sep);
      assert [a[0]] + (a[1..] + parts[0]) == a + parts[0];
    } else {
      assert a + b == b;
      var parts := Split(b, sep);
      assert parts == [parts[0]] + parts[1..];
      assert a + parts[0] == parts[0];
    }
  }

  /** Joining pieces free of the separator and splitting again gives the pieces back. */
  lemma {:induction false} SplitJoin(parts: seq<string>, sep: char)
    requires |parts| >= 1
    requires forall i :: 0 <= i < |parts| ==> sep !in parts[i]
    ensures Split(Join(parts, [sep]), sep) == parts
  {
    if |parts| == 1 {
      SplitPrefix(parts[0], [], sep);
      assert parts[0] + [] == parts[0];
    } else {
      SplitJoin(parts[1..], sep);
      var t := Join(parts[1..], [sep]);
      assert Join(parts, [sep]) == parts[0] + ([sep] + t);
      assert ([sep] + t)[0] == sep && ([sep] + t)[1..] == t;
      assert Split([sep] + t, sep) == [[]] + Split(t, sep);
      SplitPrefix(parts[0], [sep] + t, sep);
      assert parts[0] + [] == parts[0];
      assert parts == [parts[0]] + parts[1..];
    }
  }

  /** `s.split(/\r?\n/)`: split at line feeds, a carriage return right before a line feed going with it. */
  function SplitLines(s: string): (lines: seq<string>)
    ensures |lines| >= 1
  {
    var ps := Split(s, '\n');
    seq(|ps|, i requires 0 <= i < |ps| =>
      if i < |ps| - 1 && ps[i] != [] && ps[i][|ps[i]| - 1] == '\r' then ps[i][..|ps[i]| - 1] else ps[i])
  }

  function LowerChar(c: char): char {
    if IsUpper(c) then (c as int + 32) as char else c
  }

  /** `toLowerCase` restricted to ASCII letters. */
  function ToLower(s: string): (r: string)
    ensures |r| == |s|
  {
    if s == [] then [] else [LowerChar(s[0])] + ToLower(s[1..])
  }

  /** `ToLower` maps each character on its own. */
  lemma {:induction false} ToLowerChars(s: string)
    ensures forall i {:trigger ToLower(s)[i]} :: 0 <= i < |s| ==> ToLower(s)[i] == LowerChar(s[i])
  {
    if s != [] {
      ToLowerChars(s[1..]);
      assert forall i :: 1 <= i < |s| ==> ToLower(s)[i] == ToLower(s[1..])[i - 1];
    }
  }

  /** Nothing upper-case is left after `ToLower`. */
  lemma ToLowerIsLowerCase(s: string)
    ensures IsLowerCase(ToLower(s))
  {
    ToLowerChars(s);
  }

  predicate IsLowerCase(s: string) {
    forall i :: 0 <= i < |s| ==> !IsUpper(s[i])
  }

  /** Lower-casing a string with no upper-case letter leaves it as it is. */
  lemma {:induction false} ToLowerOfLowerCase(s: string)
    requires IsLowerCase(s)
    ensures ToLower(s) == s
  {
    if s != [] {
      ToLowerOfLowerCase(s[1..]);
    }
  }

  /** `pat` occurs in `s` starting at index `k`. */
  predicate IsAt(s: string, pat: string, k: nat) {
    k + |pat| <= |s| && forall i {:trigger pat[i]} :: 0 <= i < |pat| ==> s[k + i] == pat[i]
  }

  lemma IsAtChar(s: string, c: char, k: nat)
    ensures IsAt(s, [c], k) <==> k < |s| && s[k] == c
  {
    assert [c][0] == c;
    if k < |s| && s[k] == c {
      forall i | 0 <= i < 1 ensures s[k + i] == [c][i] { assert i == 0; }
    }
  }

  lemma IsAtAppendLeft(a: string, b: string, pat: string, i: nat)
    requires IsAt(a, pat, i)
    ensures IsAt(a + b, pat, i)
  {
    assert forall k {:trigger pat[k]} :: 0 <= k < |pat| ==> (a + b)[i + k] == a[i + k];
  }

  lemma IsAtAppendRight(a: string, b: string, pat: string, i: nat)
    requires IsAt(b, pat, i)
    ensures IsAt(a + b, pat, |a| + i)
  {
    assert forall k {:trigger pat[k]} :: 0 <= k < |pat| ==> (a + b)[|a| + i + k] == b[i + k];
  }

  /** An occurrence inside an occurrence. */
  lemma IsAtInside(s: string, mid: string, pat: string, i: nat, j: nat)
    requires IsAt(s, mid, i) && IsAt(mid, pat, j)
    ensures IsAt(s, pat, i + j)
  {
    assert forall k {:trigger pat[k]} :: 0 <= k < |pat| ==> s[i + j + k] == mid[j + k];
  }

  /** `s.indexOf(pat, from)`: the first occurrence of `pat` at or after `from`, or -1. */
  function Find(s: string, pat: string, from: nat): (r: int)
    ensures r == -1 || (from <= r && r + |pat| <= |s|)
    decreases |s| - from
  {
    if from + |pat| > |s| then -1
    else if IsAt(s, pat, from) then from
    else Find(s, pat, from + 1)
  }

  /** Where `Find` stops, the pattern occurs. */
  lemma {:induction false} FindFound(s: string, pat: string, from: nat)
    requires Find(s, pat, from) >= 0
    ensures IsAt(s, pat, Find(s, pat, from))
    decreases |s| - from
  {
    if !IsAt(s, pat, from) {
      FindFound(s, pat, from + 1);
    }
  }

  /** `Find` returns the leftmost occurrence, and -1 only when there is none. */
  lemma {:induction false} FindIsFirst(s: string, pat: string, from: nat)
    ensures Find(s, pat, from) >= 0 ==> forall k: nat :: from <= k < Find(s, pat, from) ==> !IsAt(s, pat, k)
    ensures Find(s, pat, from) == -1 ==> forall k: nat :: from <= k ==> !IsAt(s, pat, k)
    decreases |s| - from
  {
    if from + |pat| <= |s| && !IsAt(s, pat, from) {
      FindIsFirst(s, pat, from + 1);
    }
  }

  /** `s.replace(/pat/g, rep)` for a literal pattern: leftmost, non-overlapping occurrences. */
  function ReplaceAll(s: string, pat: string, rep: string): string
    requires pat != []
  {
    if |s| < |pat| then s
    else if s[..|pat|] == pat then rep + ReplaceAll(s[|pat|..], pat, rep)
    else [s[0]] + ReplaceAll(s[1..], pat, rep)
  }

  /** A pattern whose first character does not occur in `s` leaves `s` unchanged. */
  lemma {:induction false} ReplaceAllAbsent(s: string, pat: string, rep: string)
    requires pat != [] && pat[0] !in s
    ensures ReplaceAll(s, pat, rep) == s
  {
    if |s| >= |pat| {
      assert s[..|pat|][0] == s[0];
      ReplaceAllAbsent(s[1..], pat, rep);
    }
  }

  /** Number of occurrences of `c` in `s`. */
  function Count(s: string, c: char): nat {
    if s == [] then 0 else (if s[0] == c then 1 else 0) + Count(s[1..], c)
  }

  lemma {:induction false} CountAppend(a: string, b: string, c: char)
    ensures Count(a + b, c) == Count(a, c) + Count(b, c)
  {
    if a == [] {
      assert a + b == b;
    } else {
      assert (a + b)[1..] == a[1..] + b;
      CountAppend(a[1..], b, c);
    }
  }

  lemma {:induction false} CountAbsent(s: string, c: char)
    requires c !in s
    ensures Count(s, c) == 0
  {
    if s != [] {
      CountAbsent(s[1..], c);
    }
  }

  /** Splitting on a character yields one more piece than the character occurs. */
  lemma {:induction false} SplitCount(s: string, sep: char)
    ensures |Split(s, sep)| == Count(s, sep) + 1
  {
    if s != [] {
      SplitCount(s[1..], sep);
    }
  }

  /** Occurrences of `c` across all the parts. */
  function CountAll(parts: seq<string>, c: char): nat {
    if parts == [] then 0 else Count(parts[0], c) + CountAll(parts[1..], c)
  }

  lemma {:induction false} CountAllAppend(ps: seq<string>, qs: seq<string>, c: char)
    ensures CountAll(ps + qs, c) == CountAll(ps, c) + CountAll(qs, c)
  {
    if ps == [] {
      assert ps + qs == qs;
    } else {
      assert (ps + qs)[1..] == ps[1..] + qs;
      CountAllAppend(ps[1..], qs, c);
    }
  }

  /** Joining with `c` adds one `c` between each two parts. */
  lemma {:induction false} JoinCount(parts: seq<string>, c: char)
    requires parts != []
    ensures Count(Join(parts, [c]), c) == CountAll(parts, c) + |parts| - 1
  {
    if |parts| > 1 {
      JoinCount(parts[1..], c);
      CountAppend(parts[0], [c], c);
      CountAppend(parts[0] + [c], Join(parts[1..], [c]), c);
      assert Count([c], c) == 1 by {
        assert [c][1..] == [];
      }
    }
  }

  function DigitChar(d: nat): char
    requires d < 10
  {
    ('0' as int + d) as char
  }

  /** `String(n)` for a non-negative integer. */
  function NatToString(n: nat): (r: string)
    ensures r != [] && forall i :: 0 <= i < |r| ==> IsDigit(r[i])
  {
    if n < 10 then [DigitChar(n)] else NatToString(n / 10) + [DigitChar(n % 10)]
  }

  /** The value of a string of decimal digits (`Number(d)`). */
  function DecimalValue(s: string): nat
    requires forall i :: 0 <= i < |s| ==> IsDigit(s[i])
  {
    if s == [] then 0
    else
      assert IsDigit(s[|s| - 1]);
      DecimalValue(s[..|s| - 1]) * 10 + (s[|s| - 1] as int - '0' as int)
  }

  /** Reading back the printed decimal gives the number. */
  lemma {:induction false} DecimalOfNatToString(n: nat)
    ensures DecimalValue(NatToString(n)) == n
  {
    if n >= 10 {
      DecimalOfNatToString(n / 10);
      var r := NatToString(n);
      assert r[..|r| - 1] == NatToString(n / 10);
    }
  }

  /** Different numbers print differently. */
  lemma NatToStringInjective(m: nat, n: nat)
    requires NatToString(m) == NatToString(n)
    ensures m == n
  {
    DecimalOfNatToString(m);
    DecimalOfNatToString(n);
  }
}
