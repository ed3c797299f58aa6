/*
 * Text utilities shared by the model: the subset of Python's str/bytes
 * behaviour that the proxy, the Tailwind helper and the CLI rely on
 * (find, split, join, strip, lower-casing, decimal conversion).
 *
 * Bytes and text are one alphabet here: every character stands for one byte,
 * which is what UTF-8 decoding does to ASCII input.
 */
module Text {

  datatype Option<+T> = None | Some(value: T)

  datatype Result<+T, +E> = Ok(value: T) | Err(error: E)

  /** Concatenation of a sequence of strings (chunks read from a socket, lines, ...). */
  function Concat(parts: seq<string>): string
  {
    if |parts| == 0 then "" else parts[0] + Concat(parts[1..])
  }

  lemma {:induction false} ConcatAppend(a: seq<string>, b: seq<string>)
    ensures Concat(a + b) == Concat(a) + Concat(b)
  {
    if |a| == 0 {
      assert a + b == b;
    } else {
      assert (a + b)[1..] == a[1..] + b;
      ConcatAppend(a[1..], b);
    }
  }

  /** Regrouping a concatenation of four strings. */
  lemma Regroup(a: string, b: string, c: string, d: string)
    ensures a + b + c + d == a + (b + c + d)
  {
  }

  // ---------------------------------------------------------------------------
  // Searching
  // ---------------------------------------------------------------------------

  /** `pat` occurs in `s` starting at index `i`. */
  predicate OccursAt(s: string, pat: string, i: nat)
  {
    i + |pat| <= |s| && s[i..i + |pat|] == pat
  }

  lemma OccursAtShift(s: string, pat: string, j: nat)
    requires |s| > 0 && j >= 1
    ensures OccursAt(s, pat, j) <==> OccursAt(s[1..], pat, j - 1)
  {
    if j + |pat| <= |s| {
      assert s[1..][j - 1..j - 1 + |pat|] == s[j..j + |pat|];
    }
  }

  /**
   * Python's `s.find(pat)`: the index of the first occurrence of `pat`,
   * or None where Python returns -1.
   */
  function Find(s: string, pat: string): (r: Option<nat>)
    ensures r.Some? ==> r.value + |pat| <= |s|
    decreases |s|
  {
    if |s| < |pat| then None
    else if s[..|pat|] == pat then Some(0)
    else match Find(s[1..], pat)
      case None => None
      case Some(i) => Some(i + 1)
  }

  /** Find reports an occurrence with none before it, or None when there is none at all. */
  lemma {:induction false} FindSpec(s: string, pat: string)
    ensures Find(s, pat).Some? ==> OccursAt(s, pat, Find(s, pat).value)
    ensures Find(s, pat).Some? ==> forall j: nat :: j < Find(s, pat).value ==> !OccursAt(s, pat, j)
    ensures Find(s, pat).None? ==> forall j: nat :: !OccursAt(s, pat, j)
    decreases |s|
  {
    if |s| >= |pat| && s[..|pat|] != pat {
      FindSpec(s[1..], pat);
      forall j: nat | j >= 1 ensures OccursAt(s, pat, j) <==> OccursAt(s[1..], pat, j - 1) {
        OccursAtShift(s, pat, j);
      }
      assert !OccursAt(s, pat, 0);
    }
  }

  /** The first occurrence is the one Find reports. */
  lemma FindFirst(s: string, pat: string, i: nat)
    requires OccursAt(s, pat, i)
    requires forall j: nat :: j < i ==> !OccursAt(s, pat, j)
    ensures Find(s, pat) == Some(i)
  {
    FindSpec(s, pat);
    var r := Find(s, pat);
    assert r.Some?;
    assert !(r.value < i);
    assert !(r.value > i);
  }

  /** The first occurrence in `s` stays the first one in any extension of `s`. */
  lemma FindInPrefix(s: string, t: string, pat: string)
    requires Find(s, pat).Some?
    ensures Find(s + t, pat) == Find(s, pat)
  {
    FindSpec(s, pat);
    var i := Find(s, pat).value;
    assert (s + t)[i..i + |pat|] == s[i..i + |pat|];
    forall j: nat | j < i ensures !OccursAt(s + t, pat, j) {
      assert !OccursAt(s, pat, j);
      assert (s + t)[j..j + |pat|] == s[j..j + |pat|];
    }
    FindFirst(s + t, pat, i);
  }

  /**
   * Text with an occurrence, extended by `t`: the first occurrence stays
   * where it was, and cutting around it gives the text back.
   */
  lemma FindCut(s: string, t: string, pat: string, i: nat)
    requires Find(s, pat) == Some(i)
    ensures i + |pat| <= |s|
    ensures Find(s + t, pat) == Some(i)
    ensures s + t == s[..i] + pat + (s[i + |pat|..] + t)
  {
    FindSpec(s, pat);
    assert s == s[..i] + s[i..i + |pat|] + s[i + |pat|..];
    FindInPrefix(s, t, pat);
  }

  /** The text before the first occurrence does not contain the pattern. */
  lemma FindBeforeFirst(s: string, pat: string, i: nat)
    requires |pat| > 0 && Find(s, pat) == Some(i)
    ensures i + |pat| <= |s|
    ensures Find(s[..i], pat) == None
  {
    FindSpec(s, pat);
    FindSpec(s[..i], pat);
    forall j: nat ensures !OccursAt(s[..i], pat, j) {
      if j + |pat| <= i {
        assert s[..i][j..j + |pat|] == s[j..j + |pat|];
        assert !OccursAt(s, pat, j);
      }
    }
  }

  /** A separator whose first character is absent from `a` is first found right after `a`. */
  lemma FindAfterFree(a: string, sep: string, b: string)
    requires |sep| > 0 && sep[0] !in a
    ensures Find(a + sep + b, sep) == Some(|a|)
  {
    var s := a + sep + b;
    assert s[|a|..|a| + |sep|] == sep;
    assert OccursAt(s, sep, |a|);
    forall j: nat | j < |a| ensures !OccursAt(s, sep, j) {
      assert s[j] == a[j];
    }
    FindFirst(s, sep, |a|);
  }

  /** A string that lacks the separator's first character does not contain it. */
  lemma FindAbsent(a: string, sep: string)
    requires |sep| > 0 && sep[0] !in a
    ensures Find(a, sep) == None
  {
    FindSpec(a, sep);
    forall j: nat ensures !OccursAt(a, sep, j) {
      if j + |sep| <= |a| {
        assert a[j..j + |sep|][0] == a[j];
      }
    }
  }

  /** For a one-character pattern, Find fails exactly when the character is absent. */
  lemma FindChar(s: string, c: char)
    ensures Find(s, [c]) == None <==> c !in s
  {
    FindSpec(s, [c]);
    if c in s {
      var k :| 0 <= k < |s| && s[k] == c;
      assert s[k..k + 1] == [c];
      assert OccursAt(s, [c], k);
    } else {
      FindAbsent(s, [c]);
    }
  }

  /** `pat` occurs somewhere in `s` (Python's `pat in s`). */
  predicate Contains(s: string, pat: string)
  {
    Find(s, pat).Some?
  }

  predicate StartsWith(s: string, prefix: string)
  {
    |prefix| <= |s| && s[..|prefix|] == prefix
  }

  // ---------------------------------------------------------------------------
  // Splitting and joining
  // ---------------------------------------------------------------------------

  /** Python's `s.split(sep)` for a non-empty separator: never an empty list. */
  function Split(s: string, sep: string): (parts: seq<string>)
    requires |sep| > 0
    ensures |parts| >= 1
    decreases |s|
  {
    match Find(s, sep)
    case None => [s]
    case Some(i) => [s[..i]] + Split(s[i + |sep|..], sep)
  }

  /** Python's `sep.join(parts)`. */
  function Join(parts: seq<string>, sep: string): string
  {
    if |parts| == 0 then ""
    else if |parts| == 1 then parts[0]
    else parts[0] + sep + Join(parts[1..], sep)
  }

  lemma {:induction false} JoinAppend(a: seq<string>, b: seq<string>, sep: string)
    requires |a| > 0 && |b| > 0
    ensures Join(a + b, sep) == Join(a, sep) + sep + Join(b, sep)
  {
    if |a| == 1 {
      assert (a + b)[1..] == b;
    } else {
      assert (a + b)[1..] == a[1..] + b;
      JoinAppend(a[1..], b, sep);
    }
  }

  /** Joining the pieces of a split gives back the original string. */
  lemma JoinCons(x: string, parts: seq<string>, sep: string)
    requires |parts| > 0
    ensures Join([x] + parts, sep) == x + sep + Join(parts, sep)
  {
    assert ([x] + parts)[1..] == parts;
  }

  lemma {:induction false} JoinSplit(s: string, sep: string)
    requires |sep| > 0
    ensures Join(Split(s, sep), sep) == s
    decreases |s|
  {
    FindSpec(s, sep);
    var f := Find(s, sep);
    if f.Some? {
      var i := f.value;
      var rest := s[i + |sep|..];
      var pieces := Split(rest, sep);
      assert s[i..i + |sep|] == sep;
      JoinSplit(rest, sep);
      assert Split(s, sep) == [s[..i]] + pieces;
      JoinCons(s[..i], pieces, sep);
      calc {
        Join(Split(s, sep), sep);
        s[..i] + sep + Join(pieces, sep);
        s[..i] + s[i..i + |sep|] + rest;
        { assert s[..i] + s[i..i + |sep|] == s[..i + |sep|]; }
        s[..i + |sep|] + s[i + |sep|..];
        s;
      }
    }
  }

  /** One step of a split: the text before the first separator, then the split of the rest. */
  lemma SplitStep(s: string, sep: string, i: nat)
    requires |sep| > 0 && Find(s, sep) == Some(i)
    ensures i + |sep| <= |s|
    ensures Split(s, sep) == [s[..i]] + Split(s[i + |sep|..], sep)
  {
    FindSpec(s, sep);
  }

  /** A text free of the separator's first character, then the separator: the split's first piece. */
  lemma SplitCons(a: string, sep: string, b: string)
    requires |sep| > 0 && sep[0] !in a
    ensures Split(a + sep + b, sep) == [a] + Split(b, sep)
  {
    var s := a + sep + b;
    FindAfterFree(a, sep, b);
    SplitStep(s, sep, |a|);
    assert s[..|a|] == a && s[|a| + |sep|..] == b;
  }

  /** Two separator-free texts joined by the separator split back into the two. */
  lemma SplitPair(a: string, b: string, sep: string)
    requires |sep| > 0 && sep[0] !in a && sep[0] !in b
    ensures Split(a + sep + b, sep) == [a, b]
  {
    var s := a + sep + b;
    FindAfterFree(a, sep, b);
    SplitStep(s, sep, |a|);
    assert s[..|a|] == a && s[|a| + |sep|..] == b;
    FindAbsent(b, sep);
  }

  /** No piece produced by a split contains the separator. */
  lemma {:induction false} SplitPiecesFree(s: string, sep: string)
    requires |sep| > 0
    ensures forall k :: 0 <= k < |Split(s, sep)| ==> Find(Split(s, sep)[k], sep) == None
    decreases |s|
  {
    match Find(s, sep)
    case None =>
    case Some(i) =>
      SplitStep(s, sep, i);
      FindBeforeFirst(s, sep, i);
      SplitPiecesFree(s[i + |sep|..], sep);
  }

  /**
   * No non-empty proper prefix of `sep` ends `a`: an occurrence of `sep`
   * cannot start inside `a` and run on past its end.
   */
  predicate NoOverhang(a: string, sep: string)
  {
    forall j :: 0 < j < |sep| && j <= |a| ==> a[|a| - j..] != sep[..j]
  }

  /** A piece free of the separator, with none of it overhanging, ends where the separator is first found. */
  lemma FindAfterPiece(a: string, sep: string, b: string)
    requires |sep| > 0 && Find(a, sep) == None && NoOverhang(a, sep)
    ensures Find(a + sep + b, sep) == Some(|a|)
  {
    var s := a + sep + b;
    assert s[|a|..|a| + |sep|] == sep;
    FindSpec(a, sep);
    forall j: nat | j < |a| ensures !OccursAt(s, sep, j) {
      if j + |sep| <= |a| {
        assert s[j..j + |sep|] == a[j..j + |sep|];
        assert !OccursAt(a, sep, j);
      } else {
        var m := |a| - j;
        assert s[j..|a|] == a[|a| - m..] != sep[..m];
        if j + |sep| <= |s| {
          assert s[j..j + |sep|][..m] == s[j..|a|];
        }
      }
    }
    FindFirst(s, sep, |a|);
  }

  /** A piece lacking the separator's first character neither contains nor overhangs it. */
  lemma FreeOfFirst(a: string, sep: string)
    requires |sep| > 0 && sep[0] !in a
    ensures Find(a, sep) == None && NoOverhang(a, sep)
  {
    FindAbsent(a, sep);
    forall j | 0 < j < |sep| && j <= |a| ensures a[|a| - j..] != sep[..j] {
      assert a[|a| - j..][0] == a[|a| - j];
    }
  }

  /**
   * Splitting a join gives back the pieces, provided no piece contains the
   * separator and no occurrence straddles a boundary.
   */
  lemma {:induction false} SplitJoinFree(parts: seq<string>, sep: string)
    requires |parts| > 0 && |sep| > 0
    requires forall k :: 0 <= k < |parts| ==> Find(parts[k], sep) == None && NoOverhang(parts[k], sep)
    ensures Split(Join(parts, sep), sep) == parts
  {
    if |parts| > 1 {
      var rest := Join(parts[1..], sep);
      var s := parts[0] + sep + rest;
      assert Join(parts, sep) == s;
      FindAfterPiece(parts[0], sep, rest);
      SplitStep(s, sep, |parts[0]|);
      SplitJoinFree(parts[1..], sep);
      assert s[..|parts[0]|] == parts[0];
      assert s[|parts[0]| + |sep|..] == rest;
      assert parts == [parts[0]] + parts[1..];
    }
  }

  /** Splitting a join gives back the pieces when no piece holds the separator's first character. */
  lemma SplitJoin(parts: seq<string>, sep: string)
    requires |parts| > 0 && |sep| > 0
    requires forall k :: 0 <= k < |parts| ==> sep[0] !in parts[k]
    ensures Split(Join(parts, sep), sep) == parts
  {
    forall k | 0 <= k < |parts| ensures Find(parts[k], sep) == None && NoOverhang(parts[k], sep) {
      FreeOfFirst(parts[k], sep);
    }
    SplitJoinFree(parts, sep);
  }

  // ---------------------------------------------------------------------------
  // Whitespace and case
  // ---------------------------------------------------------------------------

  /**
   * The characters Python's `str.isspace()` accepts, which `str.strip()`
   * removes and `int()` skips: space, \t \n \v \f \r, the four separators
   * \x1c to \x1f, NEL, the no-break space, and the Unicode space and line
   * separators.
   */
  predicate IsSpace(c: char)
  {
    || c == ' ' || ('\t' <= c <= '\r') || ('\U{1C}' <= c <= '\U{1F}')
    || c == '\U{85}' || c == '\U{A0}' || c == '\U{1680}' || ('\U{2000}' <= c <= '\U{200A}')
    || c == '\U{2028}' || c == '\U{2029}' || c == '\U{202F}' || c == '\U{205F}' || c == '\U{3000}'
  }

  function TrimLeft(s: string): (r: string)
    ensures |r| <= |s| && r == s[|s| - |r|..]
    ensures |r| > 0 ==> !IsSpace(r[0])
  {
    if |s| > 0 && IsSpace(s[0]) then TrimLeft(s[1..]) else s
  }

  function TrimRight(s: string): (r: string)
    ensures |r| <= |s| && r == s[..|r|]
    ensures |r| > 0 ==> !IsSpace(r[|r| - 1])
  {
    if |s| > 0 && IsSpace(s[|s| - 1]) then TrimRight(s[..|s| - 1]) else s
  }

  /** No leading or trailing whitespace. */
  predicate IsStripped(s: string)
  {
    |s| == 0 || (!IsSpace(s[0]) && !IsSpace(s[|s| - 1]))
  }

  /** Python's `s.strip()`: the whitespace at both ends removed. */
  function Strip(s: string): (r: string)
    ensures IsStripped(r)
  {
    var t := TrimLeft(s);
    var r := TrimRight(t);
    assert |r| > 0 ==> r[0] == t[0];
    r
  }

  /** Stripping leaves a stripped string alone, also behind leading blanks. */
  lemma {:induction false} StripStripped(pad: string, s: string)
    requires forall k :: 0 <= k < |pad| ==> IsSpace(pad[k])
    requires IsStripped(s)
    ensures Strip(pad + s) == s
    decreases |pad|
  {
    if |pad| == 0 {
      assert pad + s == s;
    } else {
      assert (pad + s)[1..] == pad[1..] + s;
      StripStripped(pad[1..], s);
    }
  }

  /** Stripping a string that starts with a non-blank keeps that first character. */
  lemma StripFirst(s: string)
    requires |s| > 0 && !IsSpace(s[0])
    ensures |Strip(s)| > 0 && Strip(s)[0] == s[0]
  {
    assert TrimLeft(s) == s;
    TrimRightKeeps(s);
  }

  lemma {:induction false} TrimRightKeeps(s: string)
    requires |s| > 0 && !IsSpace(s[0])
    ensures |TrimRight(s)| > 0
    decreases |s|
  {
    if |s| > 1 && IsSpace(s[|s| - 1]) {
      TrimRightKeeps(s[..|s| - 1]);
    }
  }

  function LowerChar(c: char): char
  {
    if 'A' <= c <= 'Z' then (c as int + 32) as char else c
  }

  /** ASCII lower-casing (Python's `str.lower()` on ASCII text). */
  function Lower(s: string): (r: string)
    ensures |r| == |s|
    ensures forall i :: 0 <= i < |s| ==> r[i] == LowerChar(s[i])
  {
    seq(|s|, i requires 0 <= i < |s| => LowerChar(s[i]))
  }

  /** Python's `s.replace(c, '')` for one character. */
  function RemoveChar(s: string, c: char): (r: string)
    ensures c !in r
    ensures forall d :: d != c ==> (d in r <==> d in s)
  {
    if |s| == 0 then ""
    else (if s[0] == c then "" else [s[0]]) + RemoveChar(s[1..], c)
  }

  /** Removing a character that does not occur changes nothing. */
  lemma {:induction false} RemoveCharAbsent(s: string, c: char)
    requires c !in s
    ensures RemoveChar(s, c) == s
  {
    if |s| > 0 {
      assert s[0] != c && c !in s[1..];
      RemoveCharAbsent(s[1..], c);
      assert s == [s[0]] + s[1..];
    }
  }

  /** Removing a character from a concatenation removes it from each part. */
  lemma {:induction false} RemoveCharAppend(s: string, t: string, c: char)
    ensures RemoveChar(s + t, c) == RemoveChar(s, c) + RemoveChar(t, c)
  {
    if |s| > 0 {
      assert (s + t)[1..] == s[1..] + t;
      RemoveCharAppend(s[1..], t, c);
    } else {
      assert s + t == t;
    }
  }

  // ---------------------------------------------------------------------------
  // Decimal numbers
  // ---------------------------------------------------------------------------

  predicate IsDigit(c: char)
  {
    '0' <= c <= '9'
  }

  predicate AllDigits(s: string)
  {
    forall i :: 0 <= i < |s| ==> IsDigit(s[i])
  }

  /** A run of digits has no surrounding whitespace, and holds digits only. */
  lemma DigitsStripped(s: string)
    requires AllDigits(s)
    ensures IsStripped(s)
    ensures forall c :: c in s ==> IsDigit(c)
  {
    if |s| > 0 {
      assert IsDigit(s[0]) && IsDigit(s[|s| - 1]);
    }
  }

  /** The value of a string of decimal digits (most significant first). */
  function DigitsValue(s: string): nat
    requires AllDigits(s)
  {
    if |s| == 0 then 0
    else DigitsValue(s[..|s| - 1]) * 10 + (s[|s| - 1] as int - '0' as int)
  }

  /** Python's `str(n)` for a natural number. */
  function NatToString(n: nat): (s: string)
    ensures |s| > 0 && AllDigits(s)
    ensures DigitsValue(s) == n
    ensures n > 0 ==> s[0] != '0'
  {
    var d := ['0' + (n % 10) as char];
    if n < 10 then d
    else
      var prefix := NatToString(n / 10);
      var s := prefix + d;
      assert s[..|s| - 1] == prefix;
      s
  }

  /**
   * Python's `int(s)` restricted to ASCII: surrounding whitespace, an
   * optional sign, then at least one decimal digit. None stands for the
   * ValueError Python raises.
   */
  function ParseInt(s: string): Option<int>
  {
    var t := Strip(s);
    if |t| > 0 && (t[0] == '+' || t[0] == '-') then
      var digits := t[1..];
      if |digits| > 0 && AllDigits(digits) then
        var v: int := DigitsValue(digits);
        Some(if t[0] == '-' then -v else v)
      else None
    else if |t| > 0 && AllDigits(t) then Some(DigitsValue(t))
    else None
  }

  /** A plain run of digits parses to its value. */
  lemma ParseIntDigits(s: string)
    requires |s| > 0 && AllDigits(s)
    ensures ParseInt(s) == Some(DigitsValue(s))
  {
    assert IsDigit(s[0]) && IsDigit(s[|s| - 1]);
    StripStripped("", s);
    assert "" + s == s;
  }

  /** `int(str(n)) == n`: the decimal text of a number parses back to it. */
  lemma ParseIntNatToString(n: nat)
    ensures ParseInt(NatToString(n)) == Some(n)
  {
    ParseIntDigits(NatToString(n));
  }
}
