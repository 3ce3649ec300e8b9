/**
 * The few Python `str` operations the core relies on: whitespace stripping
 * (with Python's notion of whitespace), prefix and substring tests, ASCII
 * lower-casing, splitting on one separator character, and the `[1:-1]` slice.
 */
module Text {

  /** `str.isspace()` for one character: the characters Python's `strip()` removes. */
  predicate IsSpace(c: char)
  {
    || ('\U{9}' <= c <= '\U{D}')
    || ('\U{1C}' <= c <= '\U{20}')
    || c == '\U{85}' || c == '\U{A0}' || c == '\U{1680}'
    || ('\U{2000}' <= c <= '\U{200A}')
    || c == '\U{2028}' || c == '\U{2029}' || c == '\U{202F}' || c == '\U{205F}' || c == '\U{3000}'
  }

  /** `s.rstrip()`: the longest prefix of `s` that does not end in whitespace. */
  function RStrip(s: string): (r: string)
    ensures r <= s
    ensures |r| == 0 || !IsSpace(r[|r| - 1])
    ensures forall i :: |r| <= i < |s| ==> IsSpace(s[i])
  {
    if |s| > 0 && IsSpace(s[|s| - 1]) then RStrip(s[..|s| - 1]) else s
  }

  /** `s.lstrip()`: the longest suffix of `s` that does not start with whitespace. */
  function LStrip(s: string): (r: string)
    ensures |r| <= |s| && r == s[|s| - |r|..]
    ensures |r| == 0 || !IsSpace(r[0])
    ensures forall i :: 0 <= i < |s| - |r| ==> IsSpace(s[i])
  {
    if |s| > 0 && IsSpace(s[0]) then LStrip(s[1..]) else s
  }

  /** `s.strip()`. */
  function Strip(s: string): (r: string)
    ensures |r| == 0 || (!IsSpace(r[0]) && !IsSpace(r[|r| - 1]))
    ensures SlicedAt(s, r, |RStrip(s)| - |r|)
  {
    var t := RStrip(s);
    var r := LStrip(t);
    StripFacts(s, t, r);
    r
  }

  /** What `Strip` promises, from what `RStrip` and `LStrip` promise. */
  lemma {:induction false} StripFacts(s: string, t: string, r: string)
    requires t <= s && (|t| == 0 || !IsSpace(t[|t| - 1])) && forall j :: |t| <= j < |s| ==> IsSpace(s[j])
    requires |r| <= |t| && r == t[|t| - |r|..] && (|r| == 0 || !IsSpace(r[0]))
    requires forall j :: 0 <= j < |t| - |r| ==> IsSpace(t[j])
    ensures |r| == 0 || (!IsSpace(r[0]) && !IsSpace(r[|r| - 1]))
    ensures SlicedAt(s, r, |t| - |r|)
  {
    StripEnds(t, r);
    StripSlice(s, t, r);
  }

  lemma {:induction false} StripEnds(t: string, r: string)
    requires |t| == 0 || !IsSpace(t[|t| - 1])
    requires |r| <= |t| && r == t[|t| - |r|..] && (|r| == 0 || !IsSpace(r[0]))
    ensures |r| == 0 || (!IsSpace(r[0]) && !IsSpace(r[|r| - 1]))
  {
    assert |r| == 0 || r[|r| - 1] == t[|t| - 1];
  }

  /** Whitespace removed from the end of `s`, then from the start of the rest, leaves a slice of `s` between whitespace. */
  lemma {:induction false} StripSlice(s: string, t: string, r: string)
    requires t <= s && forall j :: |t| <= j < |s| ==> IsSpace(s[j])
    requires |r| <= |t| && r == t[|t| - |r|..] && forall j :: 0 <= j < |t| - |r| ==> IsSpace(t[j])
    ensures SlicedAt(s, r, |t| - |r|)
  {
    var i := |t| - |r|;
    assert AllSpace(s[..i]) by {
      assert s[..i] == t[..i];
    }
    assert s[i..][..|r|] == r;
    assert AllSpace(s[i..][|r|..]) by {
      forall j | 0 <= j < |s[i..][|r|..]|
        ensures IsSpace(s[i..][|r|..][j])
      {
        assert s[i..][|r|..][j] == s[|t| + j];
      }
    }
  }

  /** `r` is the slice of `s` starting at `i`, with only whitespace before and after it. */
  predicate SlicedAt(s: string, r: string, i: int)
  {
    0 <= i <= |s| - |r| && AllSpace(s[..i]) && s[i..][..|r|] == r && AllSpace(s[i..][|r|..])
  }

  /** Every character of `t` is whitespace. */
  predicate AllSpace(t: string)
  {
    forall j :: 0 <= j < |t| ==> IsSpace(t[j])
  }

  /** Stripping twice changes nothing more than stripping once. */
  lemma {:induction false} StripIdempotent(s: string)
    ensures Strip(Strip(s)) == Strip(s)
  {
    var r := Strip(s);
    NoTrailingSpace(r);
    NoLeadingSpace(r);
  }

  /** Stripping a line that has text at both ends removes just its newline. */
  lemma {:induction false} StripLine(s: string)
    requires |s| > 0 && !IsSpace(s[0]) && !IsSpace(s[|s| - 1])
    ensures Strip(s + "\n") == s
  {
    var t := s + "\n";
    assert t[..|t| - 1] == s;
    NoTrailingSpace(s);
    assert RStrip(t) == s;
    NoLeadingSpace(s);
  }

  lemma {:induction false} NoTrailingSpace(s: string)
    requires |s| == 0 || !IsSpace(s[|s| - 1])
    ensures RStrip(s) == s
  {
  }

  lemma {:induction false} NoLeadingSpace(s: string)
    requires |s| == 0 || !IsSpace(s[0])
    ensures LStrip(s) == s
  {
  }

  /** `s.startswith(p)`. */
  predicate StartsWith(s: string, p: string)
  {
    p <= s
  }

  /** `sub in s`. */
  predicate Contains(s: string, sub: string)
  {
    exists i :: 0 <= i <= |s| && sub <= s[i..]
  }

  /** `s.lower()` on ASCII letters. */
  function AsciiLower(s: string): (r: string)
    ensures |r| == |s|
    ensures forall i :: 0 <= i < |s| ==> ('A' <= s[i] <= 'Z' ==> r[i] as int == s[i] as int + 32)
    ensures forall i :: 0 <= i < |s| ==> (!('A' <= s[i] <= 'Z') ==> r[i] == s[i])
  {
    seq(|s|, i requires 0 <= i < |s| => if 'A' <= s[i] <= 'Z' then (s[i] as int + 32) as char else s[i])
  }

  /** Occurrences of `c` in `s`. */
  function Count(s: string, c: char): nat
  {
    if |s| == 0 then 0 else (if s[0] == c then 1 else 0) + Count(s[1..], c)
  }

  /** `sep.join(parts)`. */
  function Join(parts: seq<string>, sep: char): string
  {
    if |parts| == 0 then ""
    else if |parts| == 1 then parts[0]
    else parts[0] + [sep] + Join(parts[1..], sep)
  }

  /** `s.split(sep)` for a one-character separator: the empty string gives one empty part. */
  function Split(s: string, sep: char): (parts: seq<string>)
    ensures |parts| >= 1
  {
    if |s| == 0 then [""]
    else
      var rest := Split(s[1..], sep);
      if s[0] == sep then [""] + rest else [[s[0]] + rest[0]] + rest[1..]
  }

  /** There is one more part than there are separators. */
  lemma {:induction false} SplitCount(s: string, sep: char)
    ensures |Split(s, sep)| == Count(s, sep) + 1
  {
    if |s| > 0 {
      SplitCount(s[1..], sep);
    }
  }

  /** No part contains the separator. */
  lemma {:induction false} SplitPartsFree(s: string, sep: char)
    ensures forall k :: 0 <= k < |Split(s, sep)| ==> Count(Split(s, sep)[k], sep) == 0
  {
    if |s| > 0 {
      SplitPartsFree(s[1..], sep);
      var rest := Split(s[1..], sep);
      if s[0] != sep {
        assert Count([s[0]] + rest[0], sep) == Count(rest[0], sep) by {
          assert ([s[0]] + rest[0])[1..] == rest[0];
        }
      }
    }
  }

  /** Joining the parts with the separator gives back the string. */
  lemma {:induction false} SplitJoin(s: string, sep: char)
    ensures Join(Split(s, sep), sep) == s
  {
    if |s| > 0 {
      SplitJoin(s[1..], sep);
      var rest := Split(s[1..], sep);
      if s[0] == sep {
        assert Join([""] + rest, sep) == "" + [sep] + Join(rest, sep) by {
          assert ([""] + rest)[1..] == rest;
        }
      } else {
        var parts := [[s[0]] + rest[0]] + rest[1..];
        if |rest| == 1 {
          assert parts == [[s[0]] + rest[0]];
        } else {
          assert parts[1..] == rest[1..];
          assert Join(rest, sep) == rest[0] + [sep] + Join(rest[1..], sep);
        }
      }
    }
  }

  /** A string with exactly one separator splits into the text before it and the text after it. */
  lemma {:induction false} SplitOnce(s: string, sep: char, i: nat)
    requires i < |s| && s[i] == sep && Count(s[..i], sep) == 0 && Count(s[i + 1..], sep) == 0
    ensures Split(s, sep) == [s[..i], s[i + 1..]]
  {
    if i == 0 {
      NoSeparator(s[1..], sep);
    } else {
      assert s[1..][..i - 1] == s[1..i];
      assert s[..i][1..] == s[1..i];
      assert s[1..][i..] == s[i + 1..];
      SplitOnce(s[1..], sep, i - 1);
      assert [s[0]] + s[1..i] == s[..i];
    }
  }

  /** A string without the separator is its own only part. */
  lemma {:induction false} NoSeparator(s: string, sep: char)
    requires Count(s, sep) == 0
    ensures Split(s, sep) == [s]
  {
    if |s| > 0 {
      NoSeparator(s[1..], sep);
      assert [s[0]] + s[1..] == s;
    }
  }

  /** Python's `v[1:-1]`: the first and last characters removed; empty when `v` is shorter than 2. */
  function Dequote(v: string): (r: string)
    ensures |v| < 2 ==> r == ""
    ensures |v| >= 2 ==> |r| == |v| - 2 && [v[0]] + r + [v[|v| - 1]] == v
  {
    if |v| < 2 then "" else v[1..|v| - 1]
  }
}
