/**
 Models of the three functions of Go's `strings` package the menu table is
 built with: `TrimSpace`, `Split` with a one-character separator, and
 `EqualFold`. Strings are sequences of Unicode scalar values, i.e. valid
 UTF-8 text as read from a spreadsheet cell.
 */
module GoStrings {

  // ---------------------------------------------------------------------------
  // Whitespace and TrimSpace
  // ---------------------------------------------------------------------------

  /** Go's `unicode.IsSpace`: the Latin-1 spaces plus the rest of Unicode's
      White_Space property. */
  predicate IsSpace(c: char) {
    || '\t' <= c <= '\r'
    || c == ' '
    || c == '\U{0085}'
    || c == '\U{00A0}'
    || c == '\U{1680}'
    || '\U{2000}' <= c <= '\U{200A}'
    || c == '\U{2028}'
    || c == '\U{2029}'
    || c == '\U{202F}'
    || c == '\U{205F}'
    || c == '\U{3000}'
  }

  /** On ASCII, `IsSpace` agrees with the six-character table that
      `strings.TrimSpace` consults for ASCII input; outside ASCII it holds
      only for the Latin-1 and Unicode spaces. */
  lemma IsSpaceAscii(c: char)
    ensures c as int < 0x80 ==> (IsSpace(c) <==> c in {'\t', '\n', '\U{000B}', '\U{000C}', '\r', ' '})
    ensures IsSpace(c) && c as int >= 0x80 ==> c as int in {0x85, 0xA0, 0x1680, 0x2028, 0x2029, 0x202F, 0x205F, 0x3000} || 0x2000 <= c as int <= 0x200A
  {
  }

  /** Every character of `s` is whitespace. */
  predicate AllSpace(s: string) {
    forall k :: 0 <= k < |s| ==> IsSpace(s[k])
  }

  /** Neither the first nor the last character of `s` is whitespace. */
  predicate IsTrimmed(s: string) {
    |s| == 0 || (!IsSpace(s[0]) && !IsSpace(s[|s| - 1]))
  }

  /** Go's `strings.TrimSpace`: `s` without its leading and trailing
      whitespace. */
  function TrimSpace(s: string): (r: string)
    ensures IsTrimmed(r)
    ensures |r| <= |s|
  {
    if |s| > 0 && IsSpace(s[0]) then TrimSpace(s[1..])
    else if |s| > 0 && IsSpace(s[|s| - 1]) then TrimSpace(s[..|s| - 1])
    else s
  }

  /** What trimming removes is whitespace on both sides of the result:
      `a` and `b` are the whitespace cut from the front and the back. */
  lemma {:induction false} TrimSpaceWraps(s: string) returns (a: string, b: string)
    ensures s == a + TrimSpace(s) + b
    ensures AllSpace(a) && AllSpace(b)
  {
    if |s| > 0 && IsSpace(s[0]) {
      var t := TrimSpace(s[1..]);
      assert TrimSpace(s) == t;
      var a', b' := TrimSpaceWraps(s[1..]);
      a, b := [s[0]] + a', b';
      calc {
        s;
        [s[0]] + s[1..];
        [s[0]] + (a' + t + b');
        a + t + b;
      }
      assert AllSpace(a) by {
        forall k | 0 <= k < |a| ensures IsSpace(a[k]) {
          if k > 0 { assert a[k] == a'[k - 1]; }
        }
      }
    } else if |s| > 0 && IsSpace(s[|s| - 1]) {
      var t := TrimSpace(s[..|s| - 1]);
      assert TrimSpace(s) == t;
      var a', b' := TrimSpaceWraps(s[..|s| - 1]);
      a, b := a', b' + [s[|s| - 1]];
      calc {
        s;
        s[..|s| - 1] + [s[|s| - 1]];
        (a' + t + b') + [s[|s| - 1]];
        a + t + b;
      }
      assert AllSpace(b) by {
        forall k | 0 <= k < |b| ensures IsSpace(b[k]) {
          if k < |b'| { assert b[k] == b'[k]; }
        }
      }
    } else {
      a, b := "", "";
    }
  }

  /** A string's trimmed form is unique: whatever whitespace surrounds a
      trimmed core, trimming yields exactly that core. */
  lemma {:induction false} TrimSpaceUnique(a: string, m: string, b: string)
    requires AllSpace(a) && AllSpace(b) && IsTrimmed(m)
    ensures TrimSpace(a + m + b) == m
    decreases |a| + |b|
  {
    var s := a + m + b;
    if |a| > 0 {
      assert s[0] == a[0];
      assert s[1..] == a[1..] + m + b;
      TrimSpaceUnique(a[1..], m, b);
    } else if |m| == 0 && |b| > 0 {
      assert s == b && s[1..] == "" + m + b[1..];
      TrimSpaceUnique("", m, b[1..]);
    } else if |b| > 0 {
      assert s[0] == m[0];
      assert s[|s| - 1] == b[|b| - 1];
      assert s[..|s| - 1] == "" + m + b[..|b| - 1];
      TrimSpaceUnique("", m, b[..|b| - 1]);
    } else {
      assert s == m;
    }
  }

  /** A string with no surrounding whitespace is its own trimmed form. */
  lemma TrimSpaceOfTrimmed(s: string)
    requires IsTrimmed(s)
    ensures TrimSpace(s) == s
  {
    TrimSpaceUnique("", s, "");
    assert "" + s + "" == s;
  }

  /** Trimming is idempotent. */
  lemma TrimSpaceIdempotent(s: string)
    ensures TrimSpace(TrimSpace(s)) == TrimSpace(s)
  {
    var r := TrimSpace(s);
    TrimSpaceUnique("", r, "");
    assert "" + r + "" == r;
  }

  // ---------------------------------------------------------------------------
  // Split and its inverse Join
  // ---------------------------------------------------------------------------

  /** Go's `strings.Join(parts, string(sep))`. */
  function Join(parts: seq<string>, sep: char): string {
    if |parts| == 0 then ""
    else if |parts| == 1 then parts[0]
    else parts[0] + [sep] + Join(parts[1..], sep)
  }

  /** Go's `strings.Split(s, string(sep))`: the pieces of `s` between
      occurrences of `sep`. There is always at least one piece, no piece
      contains the separator, and joining the pieces back gives `s`. */
  function Split(s: string, sep: char): (r: seq<string>)
    ensures |r| >= 1
    ensures forall k :: 0 <= k < |r| ==> sep !in r[k]
    ensures Join(r, sep) == s
  {
    if |s| == 0 then [""]
    else
      var rest := Split(s[1..], sep);
      if s[0] == sep then
        assert [sep] + s[1..] == s;
        [""] + rest
      else
        var r := [[s[0]] + rest[0]] + rest[1..];
        assert r[1..] == rest[1..];
        assert s == [s[0]] + s[1..];
        r
  }

  /** A separator-free string splits into itself. */
  lemma {:induction false} SplitNoSep(a: string, sep: char)
    requires sep !in a
    ensures Split(a, sep) == [a]
  {
    if |a| > 0 {
      assert sep !in a[1..];
      SplitNoSep(a[1..], sep);
      assert [a[0]] + a[1..] == a;
    }
  }

  /** Splitting at the first separator. */
  lemma {:induction false} SplitAfterSep(a: string, b: string, sep: char)
    requires sep !in a
    ensures Split(a + [sep] + b, sep) == [a] + Split(b, sep)
  {
    var s := a + [sep] + b;
    if |a| == 0 {
      assert s[1..] == b;
    } else {
      assert sep !in a[1..];
      SplitAfterSep(a[1..], b, sep);
      assert s[1..] == a[1..] + [sep] + b;
      assert [a[0]] + a[1..] == a;
    }
  }

  /** Split inverts Join: a non-empty list of separator-free pieces is
      recovered from its joined form. With `Split`'s own `Join(r, sep) == s`
      this makes the two functions mutually inverse. */
  lemma {:induction false} SplitJoin(parts: seq<string>, sep: char)
    requires |parts| >= 1
    requires forall k :: 0 <= k < |parts| ==> sep !in parts[k]
    ensures Split(Join(parts, sep), sep) == parts
  {
    if |parts| == 1 {
      SplitNoSep(parts[0], sep);
    } else {
      SplitJoin(parts[1..], sep);
      SplitAfterSep(parts[0], Join(parts[1..], sep), sep);
      assert [parts[0]] + parts[1..] == parts;
    }
  }

  // ---------------------------------------------------------------------------
  // Concatenation and character removal
  // ---------------------------------------------------------------------------

  /** All pieces glued together with nothing between them. */
  function Concat(parts: seq<string>): string {
    if |parts| == 0 then "" else parts[0] + Concat(parts[1..])
  }

  /** `s` with every occurrence of `c` removed. */
  function RemoveChar(s: string, c: char): string {
    if |s| == 0 then ""
    else (if s[0] == c then "" else [s[0]]) + RemoveChar(s[1..], c)
  }

  lemma {:induction false} ConcatAppend(a: seq<string>, b: seq<string>)
    ensures Concat(a + b) == Concat(a) + Concat(b)
  {
    if |a| > 0 {
      assert (a + b)[1..] == a[1..] + b;
      ConcatAppend(a[1..], b);
    } else {
      assert a + b == b;
    }
  }

  /** Concatenation is empty exactly when every piece is. */
  lemma {:induction false} ConcatEmpty(parts: seq<string>)
    ensures Concat(parts) == "" <==> forall k :: 0 <= k < |parts| ==> parts[k] == ""
  {
    if |parts| > 0 {
      ConcatEmpty(parts[1..]);
      if Concat(parts) == "" {
        forall k | 0 <= k < |parts| ensures parts[k] == "" {
          if k > 0 { assert parts[k] == parts[1..][k - 1]; }
        }
      }
    }
  }

  /** The pieces of a split, glued together, are the string without its
      separators. */
  lemma {:induction false} ConcatSplit(s: string, sep: char)
    ensures Concat(Split(s, sep)) == RemoveChar(s, sep)
  {
    if |s| > 0 {
      ConcatSplit(s[1..], sep);
      var rest := Split(s[1..], sep);
      if s[0] == sep {
        assert ([""] + rest)[1..] == rest;
      } else {
        var r := [[s[0]] + rest[0]] + rest[1..];
        assert r[1..] == rest[1..];
      }
    }
  }

  /** Removing `c` leaves nothing exactly when `s` consists only of `c`. */
  lemma {:induction false} RemoveCharEmpty(s: string, c: char)
    ensures RemoveChar(s, c) == "" <==> forall k :: 0 <= k < |s| ==> s[k] == c
  {
    if |s| > 0 {
      RemoveCharEmpty(s[1..], c);
      if RemoveChar(s, c) == "" {
        forall k | 0 <= k < |s| ensures s[k] == c {
          if k > 0 { assert s[k] == s[1..][k - 1]; }
        }
      }
    }
  }

  // ---------------------------------------------------------------------------
  // Case-insensitive comparison
  // ---------------------------------------------------------------------------

  /** Two characters are the same letter in different case, or equal. */
  predicate SameUpToCase(c: char, d: char) {
    || c == d
    || ('A' <= c <= 'Z' && d as int == c as int + 32)
    || ('A' <= d <= 'Z' && c as int == d as int + 32)
  }

  /** ASCII case folding: the result is the same letter as `c` up to case
      and is never an upper-case ASCII letter. */
  function FoldAscii(c: char): (d: char)
    ensures SameUpToCase(c, d)
    ensures !('A' <= d <= 'Z')
  {
    if 'A' <= c <= 'Z' then (c as int + 32) as char else c
  }

  /** Two characters fold alike exactly when they are equal or are the two
      cases of one ASCII letter. */
  lemma FoldAsciiSame(c: char, d: char)
    ensures FoldAscii(c) == FoldAscii(d) <==> SameUpToCase(c, d)
  {
  }

  /** Go's `strings.EqualFold`, restricted to ASCII folding: the strings
      have the same length and agree position by position up to the case of
      ASCII letters. */
  predicate EqualFold(a: string, b: string)
    ensures EqualFold(a, b) <==> |a| == |b| && forall k :: 0 <= k < |a| ==> SameUpToCase(a[k], b[k])
  {
    |a| == |b| && forall k :: 0 <= k < |a| ==> FoldAscii(a[k]) == FoldAscii(b[k])
  }

  /** Case-insensitive equality is an equivalence relation. */
  lemma EqualFoldEquivalence(a: string, b: string, c: string)
    ensures EqualFold(a, a)
    ensures EqualFold(a, b) ==> EqualFold(b, a)
    ensures EqualFold(a, b) && EqualFold(b, c) ==> EqualFold(a, c)
  {
  }
}
