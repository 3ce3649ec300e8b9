/**
 * Version derivation for the package (seldon_microservice/_packaging.py):
 * matching `git describe --tags --long` output against the describe pattern,
 * formatting the PEP 440 version (a post-release segment and a local version
 * label, as in the "Post-releases" and "Local version identifiers" sections
 * of PEP 440), classifying git's exit status, the fallback order of
 * `get_version`, and the rewrite of the lines of `__init__.py`.
 */
module Packaging {
  import opened Wrappers
  import opened Text

  const DEFAULT_VERSION := "0.0.0"

  // ---------------------------------------------------------------------------
  // The describe pattern
  // ---------------------------------------------------------------------------

  /**
   * The two readings of the tag-prefix class `[_-a-zA-Z]`. As the regular
   * expression engine parses it, `_-a` is a range, so the class holds `_`,
   * the backquote, `a`, `-`, `z` and the capitals only; the evidently
   * intended class holds `_`, `-` and every ASCII letter.
   */
  datatype PrefixClass = AsWritten | Intended

  datatype CharClass = Prefix(cls: PrefixClass) | VersionChar | Digit | LowerHex

  predicate InClass(k: CharClass, c: char)
  {
    match k
    case Prefix(AsWritten) => ('_' <= c <= 'a') || c == '-' || c == 'z' || ('A' <= c <= 'Z')
    case Prefix(Intended) => c == '_' || c == '-' || ('a' <= c <= 'z') || ('A' <= c <= 'Z')
    case VersionChar => ('a' <= c <= 'z') || ('A' <= c <= 'Z') || ('0' <= c <= '9') || c == '.'
    case Digit => '0' <= c <= '9'
    case LowerHex => ('0' <= c <= '9') || ('a' <= c <= 'f')
  }

  predicate AllIn(k: CharClass, s: string)
  {
    forall i :: 0 <= i < |s| ==> InClass(k, s[i])
  }

  /** The length of the longest run of `k` characters starting at `i`: how far a greedy `[...]*` reaches. */
  function Run(k: CharClass, s: string, i: nat): (n: nat)
    requires i <= |s|
    ensures i + n <= |s|
    ensures forall j :: i <= j < i + n ==> InClass(k, s[j])
    ensures i + n == |s| || !InClass(k, s[i + n])
    decreases |s| - i
  {
    if i == |s| || !InClass(k, s[i]) then 0 else 1 + Run(k, s, i + 1)
  }

  lemma {:induction false} RunExact(k: CharClass, s: string, i: nat, n: nat)
    requires i + n <= |s|
    requires forall j :: i <= j < i + n ==> InClass(k, s[j])
    requires i + n == |s| || !InClass(k, s[i + n])
    ensures Run(k, s, i) == n
    decreases n
  {
    if n > 0 {
      RunExact(k, s, i + 1, n - 1);
    }
  }

  /** `$`: the end of the string, or just before a final newline. */
  predicate AtEnd(s: string, j: nat)
  {
    j == |s| || (j + 1 == |s| && s[j] == '\n')
  }

  /** The three groups of a match. */
  datatype Groups = Groups(version: string, post: string, hash: string)

  /** The tail of the pattern, `version-post-ghash$`, matched against the rest of the string; it can match in at most one way. */
  function TailAt(rest: string): Option<Groups>
  {
    var e1 := Run(VersionChar, rest, 0);
    if e1 == 0 || e1 == |rest| || rest[e1] != '-' then None
    else
      var e2 := e1 + 1 + Run(Digit, rest, e1 + 1);
      if e2 == e1 + 1 || e2 + 1 >= |rest| || rest[e2] != '-' || rest[e2 + 1] != 'g' then None
      else
        var e3 := e2 + 2 + Run(LowerHex, rest, e2 + 2);
        if e3 < e2 + 9 || !AtEnd(rest, e3) then None
        else Some(Groups(rest[..e1], rest[e1 + 1..e2], rest[e2 + 2..e3]))
  }

  /** After a prefix of length `p`: `v?` tries the `v` first, then without it. */
  function TryPrefix(s: string, p: nat): Option<Groups>
    requires p <= |s|
  {
    if p < |s| && s[p] == 'v' && TailAt(s[p + 1..]).Some? then TailAt(s[p + 1..]) else TailAt(s[p..])
  }

  /** Backtracking over the prefix, from length `p` down to 0. */
  function MatchFrom(s: string, p: nat): Option<Groups>
    requires p <= |s|
  {
    var t := TryPrefix(s, p);
    if t.Some? then t else if p == 0 then None else MatchFrom(s, p - 1)
  }

  /** `re.match` of the describe pattern with the given reading of the prefix class. */
  function Match(s: string, cls: PrefixClass): Option<Groups>
  {
    MatchFrom(s, Run(Prefix(cls), s, 0))
  }

  /** The text `version-post-ghash` for the groups. */
  function Body(g: Groups): string
  {
    g.version + "-" + g.post + "-g" + g.hash
  }

  /** The strings the tail of the pattern accepts, stated declaratively. */
  predicate TailShape(rest: string, g: Groups)
  {
    && |g.version| > 0 && AllIn(VersionChar, g.version)
    && |g.post| > 0 && AllIn(Digit, g.post)
    && |g.hash| >= 7 && AllIn(LowerHex, g.hash)
    && (rest == Body(g) || rest == Body(g) + "\n")
  }

  /** A prefix of length `p`, possibly followed by a `v`, and then the tail with groups `g`. */
  predicate MatchesAt(s: string, cls: PrefixClass, p: nat, g: Groups)
  {
    && p <= |s| && AllIn(Prefix(cls), s[..p])
    && (TailShape(s[p..], g) || (p < |s| && s[p] == 'v' && TailShape(s[p + 1..], g)))
  }

  /** Where the pieces of `Body(g)` sit. */
  lemma {:induction false} BodyLayout(g: Groups)
    ensures var b := Body(g);
            var e1 := |g.version|;
            var e2 := e1 + 1 + |g.post|;
            && |b| == e2 + 2 + |g.hash|
            && b[..e1] == g.version && b[e1] == '-'
            && b[e1 + 1..e2] == g.post && b[e2] == '-' && b[e2 + 1] == 'g'
            && b[e2 + 2..] == g.hash
  {
    var b := Body(g);
    var e1 := |g.version|;
    var e2 := e1 + 1 + |g.post|;
    assert b == ((g.version + "-") + g.post) + "-g" + g.hash;
    assert b[..e2 + 2] == g.version + "-" + g.post + "-g";
    assert b[..e2] == g.version + "-" + g.post;
    assert b[..e1 + 1] == g.version + "-";
  }

  /** The tail matcher accepts exactly the declared shape, with exactly those groups. */
  lemma {:induction false} TailAtExact(rest: string, g: Groups)
    ensures TailAt(rest) == Some(g) <==> TailShape(rest, g)
  {
    if TailShape(rest, g) {
      TailShapeMatches(rest, g);
    }
    if TailAt(rest) == Some(g) {
      TailAtSound(rest);
    }
  }

  lemma {:induction false} TailShapeMatches(rest: string, g: Groups)
    requires TailShape(rest, g)
    ensures TailAt(rest) == Some(g)
  {
    TailShapeBounds(rest, g);
    BodyMatches(rest, g);
  }

  lemma TailShapeBounds(rest: string, g: Groups)
    requires TailShape(rest, g)
    ensures |Body(g)| <= |rest| && rest[..|Body(g)|] == Body(g) && AtEnd(rest, |Body(g)|)
  {
  }

  lemma {:induction false} BodyMatches(rest: string, g: Groups)
    requires |g.version| > 0 && AllIn(VersionChar, g.version)
    requires |g.post| > 0 && AllIn(Digit, g.post)
    requires |g.hash| >= 7 && AllIn(LowerHex, g.hash)
    requires |Body(g)| <= |rest| && rest[..|Body(g)|] == Body(g) && AtEnd(rest, |Body(g)|)
    ensures TailAt(rest) == Some(g)
  {
    BodyLayout(g);
    LayoutMatches(rest, Body(g), g);
  }

  /** `BodyMatches` with the body known only through its layout. */
  lemma {:induction false} LayoutMatches(rest: string, b: string, g: Groups)
    requires |g.version| > 0 && AllIn(VersionChar, g.version)
    requires |g.post| > 0 && AllIn(Digit, g.post)
    requires |g.hash| >= 7 && AllIn(LowerHex, g.hash)
    requires var e1 := |g.version|;
             var e2 := e1 + 1 + |g.post|;
             && |b| == e2 + 2 + |g.hash|
             && b[..e1] == g.version && b[e1] == '-'
             && b[e1 + 1..e2] == g.post && b[e2] == '-' && b[e2 + 1] == 'g'
             && b[e2 + 2..] == g.hash
    requires |b| <= |rest| && rest[..|b|] == b && AtEnd(rest, |b|)
    ensures TailAt(rest) == Some(g)
  {
    var e1 := |g.version|;
    var e2 := e1 + 1 + |g.post|;
    LayoutRuns(rest, b, g);
    TailAtOfRuns(rest, e1, e2, |b|);
  }

  /** Where the three runs of the tail matcher stop when `rest` starts with a laid-out body. */
  lemma {:induction false} LayoutRuns(rest: string, b: string, g: Groups)
    requires |g.version| > 0 && AllIn(VersionChar, g.version)
    requires |g.post| > 0 && AllIn(Digit, g.post)
    requires |g.hash| >= 7 && AllIn(LowerHex, g.hash)
    requires var e1 := |g.version|;
             var e2 := e1 + 1 + |g.post|;
             && |b| == e2 + 2 + |g.hash|
             && b[..e1] == g.version && b[e1] == '-'
             && b[e1 + 1..e2] == g.post && b[e2] == '-' && b[e2 + 1] == 'g'
             && b[e2 + 2..] == g.hash
    requires |b| <= |rest| && rest[..|b|] == b && AtEnd(rest, |b|)
    ensures var e1 := |g.version|;
            var e2 := e1 + 1 + |g.post|;
            && Run(VersionChar, rest, 0) == e1 && rest[e1] == '-' && rest[..e1] == g.version
            && Run(Digit, rest, e1 + 1) == |g.post| && rest[e2] == '-' && rest[e2 + 1] == 'g' && rest[e1 + 1..e2] == g.post
            && Run(LowerHex, rest, e2 + 2) == |g.hash| && rest[e2 + 2..|b|] == g.hash
  {
    var e1 := |g.version|;
    var e2 := e1 + 1 + |g.post|;
    var e3 := |b|;
    assert b[0..e1] == g.version by {
      assert b[0..e1] == b[..e1];
    }
    PieceBefore(VersionChar, rest, b, 0, g.version, '-');
    PieceBefore(Digit, rest, b, e1 + 1, g.post, '-');
    assert rest[e2 + 1] == b[e2 + 1];
    assert b[e2 + 2..e3] == g.hash by {
      assert b[e2 + 2..e3] == b[e2 + 2..];
    }
    PieceAtEnd(rest, b, e2 + 2, g.hash);
    assert rest[..e1] == rest[0..e1];
  }

  /** A piece of the body followed, inside the body, by a character outside its class. */
  lemma {:induction false} PieceBefore(k: CharClass, rest: string, b: string, i: nat, piece: string, next: char)
    requires |b| <= |rest| && rest[..|b|] == b
    requires i + |piece| < |b| && b[i..i + |piece|] == piece && AllIn(k, piece)
    requires b[i + |piece|] == next && !InClass(k, next)
    ensures Run(k, rest, i) == |piece| && rest[i..i + |piece|] == piece && rest[i + |piece|] == next
  {
    assert rest[i + |piece|] == b[i + |piece|];
    PieceRun(k, rest, b, i, piece);
  }

  /** The hash, which ends the body: what follows it is the end or a final newline. */
  lemma {:induction false} PieceAtEnd(rest: string, b: string, i: nat, piece: string)
    requires |b| <= |rest| && rest[..|b|] == b && AtEnd(rest, |b|)
    requires i + |piece| == |b| && b[i..i + |piece|] == piece && AllIn(LowerHex, piece)
    ensures Run(LowerHex, rest, i) == |piece| && rest[i..i + |piece|] == piece
  {
    PieceRun(LowerHex, rest, b, i, piece);
  }

  /** The tail matcher, once the three runs and the separators between them are known. */
  lemma {:induction false} TailAtOfRuns(rest: string, e1: nat, e2: nat, e3: nat)
    requires 0 < e1 && e1 + 1 < e2 && e2 + 9 <= e3 <= |rest|
    requires Run(VersionChar, rest, 0) == e1 && rest[e1] == '-'
    requires Run(Digit, rest, e1 + 1) == e2 - e1 - 1 && rest[e2] == '-' && rest[e2 + 1] == 'g'
    requires Run(LowerHex, rest, e2 + 2) == e3 - e2 - 2 && AtEnd(rest, e3)
    ensures TailAt(rest) == Some(Groups(rest[..e1], rest[e1 + 1..e2], rest[e2 + 2..e3]))
  {
  }

  /** A piece of `b` (itself a prefix of `rest`) made of class characters and followed by a non-class character or the end. */
  lemma {:induction false} PieceRun(k: CharClass, rest: string, b: string, i: nat, piece: string)
    requires |b| <= |rest| && rest[..|b|] == b
    requires i + |piece| <= |b| && b[i..i + |piece|] == piece && AllIn(k, piece)
    requires i + |piece| == |rest| || !InClass(k, rest[i + |piece|])
    ensures Run(k, rest, i) == |piece| && rest[i..i + |piece|] == piece
  {
    forall j | i <= j < i + |piece|
      ensures InClass(k, rest[j])
    {
      assert rest[j] == b[j] == piece[j - i];
    }
    RunExact(k, rest, i, |piece|);
    assert rest[i..i + |piece|] == b[i..i + |piece|];
  }

  lemma {:induction false} TailAtSound(rest: string)
    requires TailAt(rest).Some?
    ensures TailShape(rest, TailAt(rest).value)
  {
    var e1 := Run(VersionChar, rest, 0);
    var e2 := e1 + 1 + Run(Digit, rest, e1 + 1);
    var e3 := e2 + 2 + Run(LowerHex, rest, e2 + 2);
    assert TailAt(rest) == Some(Groups(rest[..e1], rest[e1 + 1..e2], rest[e2 + 2..e3]));
    SlicesShape(rest, e1, e2, e3);
  }

  /** Three runs with the separators between them and `$` after them have the declared tail shape. */
  lemma {:induction false} SlicesShape(rest: string, e1: nat, e2: nat, e3: nat)
    requires 0 < e1 && e1 + 1 < e2 && e2 + 9 <= e3 <= |rest|
    requires rest[e1] == '-' && rest[e2] == '-' && rest[e2 + 1] == 'g' && AtEnd(rest, e3)
    requires forall m :: 0 <= m < e1 ==> InClass(VersionChar, rest[m])
    requires forall m :: e1 + 1 <= m < e2 ==> InClass(Digit, rest[m])
    requires forall m :: e2 + 2 <= m < e3 ==> InClass(LowerHex, rest[m])
    ensures TailShape(rest, Groups(rest[..e1], rest[e1 + 1..e2], rest[e2 + 2..e3]))
  {
    BodyOfSlices(rest, e1, e2, e3);
    SliceAllIn(VersionChar, rest, 0, e1);
    SliceAllIn(Digit, rest, e1 + 1, e2);
    SliceAllIn(LowerHex, rest, e2 + 2, e3);
    assert rest[..e1] == rest[0..e1];
    EndAfterPrefix(rest, e3);
  }

  /** A slice of a run of class `k` is entirely in `k`. */
  lemma SliceAllIn(k: CharClass, s: string, i: nat, j: nat)
    requires i <= j <= |s|
    requires forall m :: i <= m < j ==> InClass(k, s[m])
    ensures AllIn(k, s[i..j])
  {
  }

  /** `$` at position `j`: what is left is nothing or a single newline. */
  lemma EndAfterPrefix(s: string, j: nat)
    requires j <= |s| && AtEnd(s, j)
    ensures s == s[..j] || s == s[..j] + "\n"
  {
    if j < |s| {
      assert s == s[..j] + "\n";
    }
  }

  /** `s[..k]` is `s[..j]` followed by `s[j..k]`. */
  lemma PrefixSplit(s: string, j: nat, k: nat)
    requires j <= k <= |s|
    ensures s[..k] == s[..j] + s[j..k]
  {
  }

  /** Glueing the slices between the separators back together gives the prefix up to the end of the hash. */
  lemma {:induction false} BodyOfSlices(rest: string, e1: nat, e2: nat, e3: nat)
    requires e1 < e2 && e2 + 2 <= e3 <= |rest|
    requires rest[e1] == '-' && rest[e2] == '-' && rest[e2 + 1] == 'g'
    ensures rest[..e3] == Body(Groups(rest[..e1], rest[e1 + 1..e2], rest[e2 + 2..e3]))
  {
    PrefixSplit(rest, e1, e1 + 1);
    assert rest[e1..e1 + 1] == "-";
    PrefixSplit(rest, e1 + 1, e2);
    PrefixSplit(rest, e2, e2 + 2);
    assert rest[e2..e2 + 2] == "-g";
    PrefixSplit(rest, e2 + 2, e3);
  }

  /** Soundness: a match is a prefix from the class, an optional `v`, and the tail. */
  lemma {:induction false} MatchSound(s: string, cls: PrefixClass)
    requires Match(s, cls).Some?
    ensures exists p :: MatchesAt(s, cls, p, Match(s, cls).value)
  {
    var p := MatchFromSound(s, cls, Run(Prefix(cls), s, 0));
  }

  lemma {:induction false} MatchFromSound(s: string, cls: PrefixClass, q: nat) returns (p: nat)
    requires q <= Run(Prefix(cls), s, 0) && MatchFrom(s, q).Some?
    ensures MatchesAt(s, cls, p, MatchFrom(s, q).value)
    decreases q
  {
    var t := TryPrefix(s, q);
    if t.Some? {
      p := q;
      assert AllIn(Prefix(cls), s[..p]);
      if q < |s| && s[q] == 'v' && TailAt(s[q + 1..]).Some? {
        TailAtSound(s[q + 1..]);
      } else {
        TailAtSound(s[q..]);
      }
    } else {
      p := MatchFromSound(s, cls, q - 1);
    }
  }

  /** Completeness: whenever the string has the pattern's shape, the matcher finds a match. */
  lemma {:induction false} MatchComplete(s: string, cls: PrefixClass, p: nat, g: Groups)
    requires MatchesAt(s, cls, p, g)
    ensures Match(s, cls).Some?
  {
    var q := Run(Prefix(cls), s, 0);
    assert p <= q;
    if TailShape(s[p..], g) {
      TailShapeMatches(s[p..], g);
    } else {
      TailShapeMatches(s[p + 1..], g);
    }
    MatchFromFinds(s, q, p);
  }

  lemma {:induction false} MatchFromFinds(s: string, q: nat, p: nat)
    requires p <= q <= |s| && TryPrefix(s, p).Some?
    ensures MatchFrom(s, q).Some?
    decreases q
  {
    if q > p && TryPrefix(s, q).None? {
      MatchFromFinds(s, q - 1, p);
    }
  }

  /** The captured version never contains a `-`: the tail splits at the first `-` after the prefix. */
  lemma {:induction false} VersionHasNoDash(s: string, cls: PrefixClass)
    requires Match(s, cls).Some?
    ensures forall i :: 0 <= i < |Match(s, cls).value.version| ==> Match(s, cls).value.version[i] != '-'
  {
    var g := Match(s, cls).value;
    MatchSound(s, cls);
    var p: nat :| MatchesAt(s, cls, p, g);
    assert AllIn(VersionChar, g.version) by {
      if !TailShape(s[p..], g) {
        assert TailShape(s[p + 1..], g);
      }
    }
  }

  // ---------------------------------------------------------------------------
  // From describe output to a version
  // ---------------------------------------------------------------------------

  /** The PEP 440 version for the groups: the tag itself at the tag, otherwise `<tag>.post<n>+<hash>`. */
  function FormatVersion(g: Groups): (v: string)
    ensures g.post == "0" ==> v == g.version
    ensures g.post != "0" ==> v == g.version + ".post" + g.post + "+" + g.hash
  {
    if g.post == "0" then g.version else g.version + ".post" + g.post + "+" + g.hash
  }

  /**
   * `_get_version_from_git_tag` given what `_git_describe_tags` returned; a missing
   * result is matched as "". The program is `cls == AsWritten`.
   */
  function VersionFromDescribe(describe: Option<string>, cls: PrefixClass): (r: Option<string>)
    ensures describe.None? ==> r.None?
    ensures r.Some? ==> |r.value| > 0
  {
    var s := if describe.Some? then describe.value else "";
    match Match(s, cls)
    case None => None
    case Some(g) =>
      VersionNonEmpty(s, cls, g);
      Some(FormatVersion(g))
  }

  lemma {:induction false} VersionNonEmpty(s: string, cls: PrefixClass, g: Groups)
    requires Match(s, cls) == Some(g)
    ensures |FormatVersion(g)| > 0
  {
    MatchSound(s, cls);
    var p: nat :| MatchesAt(s, cls, p, g);
    assert |g.version| > 0 by {
      if !TailShape(s[p..], g) {
        assert TailShape(s[p + 1..], g);
      }
    }
  }

  /** When the greedy prefix stops at `p` and the tail matches there (after a `v` if one follows), that is the match. */
  lemma {:induction false} MatchAtGreedyPrefix(s: string, cls: PrefixClass, p: nat, g: Groups)
    requires p <= |s| && Run(Prefix(cls), s, 0) == p
    requires if p < |s| && s[p] == 'v' then TailShape(s[p + 1..], g) else TailShape(s[p..], g)
    ensures Match(s, cls) == Some(g)
  {
    if p < |s| && s[p] == 'v' {
      TailShapeMatches(s[p + 1..], g);
    } else {
      TailShapeMatches(s[p..], g);
    }
  }

  /** A describe string that matches yields the formatted groups. */
  lemma VersionOfMatch(s: string, cls: PrefixClass, g: Groups)
    requires Match(s, cls) == Some(g)
    ensures VersionFromDescribe(Some(s), cls) == Some(FormatVersion(g))
  {
  }

  /**
   * A describe string gives a version exactly when it has the declared form: a prefix
   * of class characters, an optional `v`, then `version-post-ghash` and `$`.
   */
  lemma {:induction false} VersionExactlyWhenShaped(s: string, cls: PrefixClass)
    ensures VersionFromDescribe(Some(s), cls).Some? <==> exists p, g :: MatchesAt(s, cls, p, g)
  {
    if Match(s, cls).Some? {
      MatchSound(s, cls);
    }
    if exists p, g :: MatchesAt(s, cls, p, g) {
      var p, g :| MatchesAt(s, cls, p, g);
      MatchComplete(s, cls, p, g);
    }
  }

  lemma PostFourVersion()
    ensures FormatVersion(Groups("1.2.3", "4", "0123abc")) == "1.2.3.post4+0123abc"
  {
  }

  lemma PostThreeVersion()
    ensures FormatVersion(Groups("1.0", "3", "abcdef0")) == "1.0.post3+abcdef0"
  {
  }

  /** The tails of the describe strings used in the examples below have the declared shape. */
  lemma CommitsTailShape(t: string)
    requires t == "1.2.3-4-g0123abc"
    ensures TailShape(t, Groups("1.2.3", "4", "0123abc"))
  {
    assert t == Body(Groups("1.2.3", "4", "0123abc"));
  }

  lemma ExactTailShape(t: string)
    requires t == "2.0-0-gdeadbee\n"
    ensures TailShape(t, Groups("2.0", "0", "deadbee"))
  {
    assert t == Body(Groups("2.0", "0", "deadbee")) + "\n";
  }

  lemma RelTailShape(t: string)
    requires t == "1.0-3-gabcdef0"
    ensures TailShape(t, Groups("1.0", "3", "abcdef0"))
  {
    assert t == Body(Groups("1.0", "3", "abcdef0"));
  }

  /** A typical release tag followed by commits: both readings of the prefix class give the same groups. */
  lemma VTagWithCommits(s: string)
    requires s == "v1.2.3-4-g0123abc"
    ensures Match(s, AsWritten) == Some(Groups("1.2.3", "4", "0123abc"))
    ensures Match(s, Intended) == Some(Groups("1.2.3", "4", "0123abc"))
  {
    assert s[1..] == "1.2.3-4-g0123abc";
    CommitsTailShape(s[1..]);
    assert s[0] == 'v' && s[1] == '1';
    VTagMatches(s, AsWritten, Groups("1.2.3", "4", "0123abc"));
    VTagMatches(s, Intended, Groups("1.2.3", "4", "0123abc"));
  }

  /**
   * A `v`, then a tail: as written `v` is outside the prefix class, so the prefix is
   * empty and `v?` takes the `v`; with the intended class the prefix takes the `v`
   * and stops before the version. Either way the groups are the tail's.
   */
  lemma {:induction false} VTagMatches(s: string, cls: PrefixClass, g: Groups)
    requires |s| > 1 && s[0] == 'v' && !InClass(Prefix(Intended), s[1]) && TailShape(s[1..], g)
    ensures Match(s, cls) == Some(g)
    ensures VersionFromDescribe(Some(s), cls) == Some(FormatVersion(g))
  {
    if cls == AsWritten {
      RunExact(Prefix(AsWritten), s, 0, 0);
      MatchAtGreedyPrefix(s, AsWritten, 0, g);
    } else {
      RunExact(Prefix(Intended), s, 0, 1);
      MatchAtGreedyPrefix(s, Intended, 1, g);
    }
    VersionOfMatch(s, cls, g);
  }

  /** The version for it is a post-release with the hash as local label. */
  lemma VTagWithCommitsVersion(s: string)
    requires s == "v1.2.3-4-g0123abc"
    ensures VersionFromDescribe(Some(s), AsWritten) == Some("1.2.3.post4+0123abc")
    ensures VersionFromDescribe(Some(s), Intended) == Some("1.2.3.post4+0123abc")
  {
    VTagWithCommits(s);
    VersionOfMatch(s, AsWritten, Groups("1.2.3", "4", "0123abc"));
    VersionOfMatch(s, Intended, Groups("1.2.3", "4", "0123abc"));
    PostFourVersion();
  }

  /**
   * At the tag itself (post `0`) the version is the tag, without the `v`. The string also
   * ends in a newline, which `$` accepts; describe output reaches the pattern stripped, so
   * this is the anchor's behaviour rather than git's.
   */
  lemma VTagExactly(s: string)
    requires s == "v2.0-0-gdeadbee\n"
    ensures VersionFromDescribe(Some(s), AsWritten) == Some("2.0")
    ensures VersionFromDescribe(Some(s), Intended) == Some("2.0")
  {
    var g := Groups("2.0", "0", "deadbee");
    assert s[1..] == "2.0-0-gdeadbee\n";
    ExactTailShape(s[1..]);
    assert s[0] == 'v' && s[1] == '2';
    VTagMatches(s, AsWritten, g);
    VTagMatches(s, Intended, g);
  }

  /** As written, a tag prefix with a letter outside the parsed class stops the match altogether. */
  lemma PrefixClassAsWrittenRejects(s: string)
    requires s == "rel-1.0-3-gabcdef0"
    ensures Match(s, AsWritten).None?
    ensures VersionFromDescribe(Some(s), AsWritten).None?
  {
    assert s[0] == 'r' && s[1] == 'e' && s[2] == 'l' && s[3] == '-' && s[4] == '1' && s[5] == '.';
    RunExact(Prefix(AsWritten), s, 0, 0);
    MatchNoPrefix(s, AsWritten);
    RunExact(VersionChar, s, 0, 3);
    RunExact(Digit, s, 4, 1);
    NoSecondDash(s, 3, 5);
  }

  /** When the prefix class matches nothing and no `v` follows, the match is the tail matcher on the whole string. */
  lemma {:induction false} MatchNoPrefix(s: string, cls: PrefixClass)
    requires Run(Prefix(cls), s, 0) == 0 && (|s| == 0 || s[0] != 'v')
    ensures Match(s, cls) == TailAt(s)
  {
    assert s[0..] == s;
  }

  /** When the first run is not followed by digits and a dash, the tail matcher fails. */
  lemma {:induction false} NoSecondDash(rest: string, e1: nat, e2: nat)
    requires 0 < e1 < e2 < |rest| && rest[e1] == '-' && rest[e2] != '-'
    requires Run(VersionChar, rest, 0) == e1 && Run(Digit, rest, e1 + 1) == e2 - e1 - 1
    ensures TailAt(rest).None?
  {
  }

  /** With the intended class the prefix `rel-` is skipped and the version is derived. */
  lemma PrefixClassIntendedAccepts(s: string)
    requires s == "rel-1.0-3-gabcdef0"
    ensures Match(s, Intended) == Some(Groups("1.0", "3", "abcdef0"))
    ensures VersionFromDescribe(Some(s), Intended) == Some("1.0.post3+abcdef0")
  {
    var g := Groups("1.0", "3", "abcdef0");
    assert s[4..] == "1.0-3-gabcdef0";
    RelTailShape(s[4..]);
    RunExact(Prefix(Intended), s, 0, 4);
    MatchAtGreedyPrefix(s, Intended, 4, g);
    VersionOfMatch(s, Intended, g);
    PostThreeVersion();
  }

  /** With `--always` and no tag, describe prints only the hash, which does not match. */
  lemma BareHashHasNoVersion(s: string)
    requires s == "abcdef0"
    ensures VersionFromDescribe(Some(s), AsWritten) == None
    ensures VersionFromDescribe(Some(s), Intended) == None
  {
    ShortStringsDoNotMatch(s, AsWritten);
    ShortStringsDoNotMatch(s, Intended);
  }

  /** The shortest string the pattern accepts has 12 characters (`0-0-g` and seven hash digits). */
  lemma {:induction false} ShortStringsDoNotMatch(s: string, cls: PrefixClass)
    requires |s| < 12
    ensures Match(s, cls).None?
  {
    if Match(s, cls).Some? {
      var g := Match(s, cls).value;
      MatchSound(s, cls);
      var p: nat :| MatchesAt(s, cls, p, g);
      BodyLayout(g);
    }
  }

  // ---------------------------------------------------------------------------
  // Running git
  // ---------------------------------------------------------------------------

  /** What `_call` returns: decoded stdout and stderr and the return code. */
  datatype Response = Response(stdout: string, stderr: string, rc: int)

  /** One git invocation: it ran and returned a response, or the process could not be started (`OSError`). */
  datatype GitRun = Ran(response: Response) | LaunchFailed

  datatype GitFailure = CalledProcessError(returncode: int, stderr: string) | OSError

  /** `_git_describe_tags`, given the outcomes of `git update-index --refresh` and `git describe --tags --long --always`. */
  function GitDescribeTags(updateIndex: GitRun, describe: GitRun): (r: Result<Option<string>, GitFailure>)
  {
    if updateIndex.LaunchFailed? then Failure(OSError)
    else if describe.LaunchFailed? then Failure(OSError)
    else
      var response := describe.response;
      if response.rc == 0 then Success(Some(Strip(response.stdout)))
      else if response.rc == 128 && Contains(AsciiLower(response.stderr), "no names found") then Success(None)
      else if response.rc == 128 && Contains(AsciiLower(response.stderr), "not a git repository") then Success(None)
      else if response.rc == 127 then Failure(CalledProcessError(response.rc, response.stderr))
      else Failure(CalledProcessError(response.rc, response.stderr))
  }

  /** The exit status of `describe` decides; the result of `update-index` matters only when git cannot be started. */
  lemma GitDescribeTagsClassifies(response: Response, update: Response)
    ensures var r := GitDescribeTags(Ran(update), Ran(response));
            var lower := AsciiLower(response.stderr);
            && (response.rc == 0 <==> r.Success? && r.value.Some?)
            && (response.rc == 0 ==> r == Success(Some(Strip(response.stdout))))
            && (r == Success(None) <==>
                  response.rc == 128 && (Contains(lower, "no names found") || Contains(lower, "not a git repository")))
            && (r.Failure? <==>
                  response.rc != 0 && !(response.rc == 128 && (Contains(lower, "no names found") || Contains(lower, "not a git repository"))))
            && (r.Failure? ==> r.error == CalledProcessError(response.rc, response.stderr))
    ensures GitDescribeTags(LaunchFailed, Ran(response)) == Failure(OSError)
    ensures GitDescribeTags(Ran(update), LaunchFailed) == Failure(OSError)
  {
  }

  /** The stderr test ignores ASCII case. */
  lemma {:induction false} GitStderrCaseInsensitive(update: Response, stdout: string, stderr: string)
    ensures var loud := GitDescribeTags(Ran(update), Ran(Response(stdout, AsciiUpper(stderr), 128)));
            var quiet := GitDescribeTags(Ran(update), Ran(Response(stdout, stderr, 128)));
            loud.Success? == quiet.Success? && (loud.Success? ==> loud == quiet)
  {
    LowerOfUpper(stderr);
    assert AsciiLower(AsciiUpper(stderr)) == AsciiLower(stderr);
  }

  function AsciiUpper(s: string): (r: string)
    ensures |r| == |s|
  {
    seq(|s|, i requires 0 <= i < |s| => if 'a' <= s[i] <= 'z' then (s[i] as int - 32) as char else s[i])
  }

  lemma {:induction false} LowerOfUpper(s: string)
    ensures AsciiLower(AsciiUpper(s)) == AsciiLower(s)
  {
    var u := AsciiUpper(s);
    assert forall i :: 0 <= i < |s| ==> AsciiLower(u)[i] == AsciiLower(s)[i] by {
      forall i | 0 <= i < |s|
        ensures AsciiLower(u)[i] == AsciiLower(s)[i]
      {
        if 'a' <= s[i] <= 'z' {
          assert u[i] as int == s[i] as int - 32;
        }
      }
    }
    assert AsciiLower(u) == AsciiLower(s);
  }

  // ---------------------------------------------------------------------------
  // get_version
  // ---------------------------------------------------------------------------

  /** The `.version` file next to the package: absent, its contents, or a read that raised. */
  datatype VersionFile = Absent | Contents(text: string) | Unreadable

  /**
   * `get_version`: a non-blank `.version` file, else the git tag, else (and on any
   * exception) the default. The program is `cls == AsWritten`.
   */
  function GetVersion(file: VersionFile, updateIndex: GitRun, describe: GitRun, cls: PrefixClass): (version: string)
    ensures |version| > 0
  {
    if file.Unreadable? then DEFAULT_VERSION
    else if file.Contents? && Strip(file.text) != "" then Strip(file.text)
    else
      match GitDescribeTags(updateIndex, describe)
      case Failure(_) => DEFAULT_VERSION
      case Success(d) =>
        match VersionFromDescribe(d, cls)
        case None => DEFAULT_VERSION
        case Some(v) => v
  }

  /** A non-blank version file wins, and git is not consulted at all. */
  lemma VersionFileWins(text: string, u1: GitRun, d1: GitRun, u2: GitRun, d2: GitRun, cls: PrefixClass)
    requires Strip(text) != ""
    ensures GetVersion(Contents(text), u1, d1, cls) == Strip(text)
    ensures GetVersion(Contents(text), u1, d1, cls) == GetVersion(Contents(text), u2, d2, cls)
  {
  }

  /** A blank version file counts as no file. */
  lemma BlankVersionFileFallsThrough(text: string, updateIndex: GitRun, describe: GitRun, cls: PrefixClass)
    requires Strip(text) == ""
    ensures GetVersion(Contents(text), updateIndex, describe, cls) == GetVersion(Absent, updateIndex, describe, cls)
  {
  }

  /** Without a version file, the result is the git-derived version when there is one, and "0.0.0" otherwise. */
  lemma GitOrDefault(updateIndex: GitRun, describe: GitRun, cls: PrefixClass)
    ensures var r := GitDescribeTags(updateIndex, describe);
            var fromGit := if r.Success? then VersionFromDescribe(r.value, cls) else None;
            GetVersion(Absent, updateIndex, describe, cls) == (if fromGit.Some? then fromGit.value else DEFAULT_VERSION)
  {
  }

  /** Any failure (an unreadable file, git that cannot start or fails) gives "0.0.0". */
  lemma FailuresGiveDefault(updateIndex: GitRun, describe: GitRun, cls: PrefixClass)
    ensures GetVersion(Unreadable, updateIndex, describe, cls) == DEFAULT_VERSION
    ensures GitDescribeTags(updateIndex, describe).Failure? ==> GetVersion(Absent, updateIndex, describe, cls) == DEFAULT_VERSION
  {
  }
  /**
   * The prefix-class finding end to end: with no version file, a working git and the
   * tag `rel-1.0`, the program falls back to "0.0.0", where the intended class gives
   * the post-release version.
   */
  lemma RelTagGetVersion(out: string, update: Response, stderr: string)
    requires out == "rel-1.0-3-gabcdef0\n"
    ensures GetVersion(Absent, Ran(update), Ran(Response(out, stderr, 0)), AsWritten) == DEFAULT_VERSION
    ensures GetVersion(Absent, Ran(update), Ran(Response(out, stderr, 0)), Intended) == "1.0.post3+abcdef0"
  {
    var s := out[..|out| - 1];
    assert s == "rel-1.0-3-gabcdef0";
    assert out == s + "\n";
    assert s[0] == 'r' && s[|s| - 1] == '0';
    StripLine(s);
    PrefixClassAsWrittenRejects(s);
    PrefixClassIntendedAccepts(s);
  }


  // ---------------------------------------------------------------------------
  // Rewriting __init__.py
  // ---------------------------------------------------------------------------

  /** The line that hard-codes the version. */
  function VersionLine(version: string): string
  {
    "__version__ = \"" + version + "\"\n"
  }

  /** What the rewrite does to one line: replaced, dropped (None), or kept. */
  function RewriteLine(line: string, version: string): Option<string>
  {
    if StartsWith(line, "__version__") then Some(VersionLine(version))
    else if Contains(line, "._packaging") then None
    else Some(line)
  }

  /** The list after the loop: each entry rewritten in place. */
  function Rewritten(lines: seq<string>, version: string): (r: seq<Option<string>>)
    ensures |r| == |lines| && forall i :: 0 <= i < |lines| ==> r[i] == RewriteLine(lines[i], version)
  {
    seq(|lines|, i requires 0 <= i < |lines| => RewriteLine(lines[i], version))
  }

  /** The lines that remain, in order. */
  function Kept(lines: seq<string>, version: string): (kept: seq<string>)
    ensures |kept| <= |lines|
  {
    if |lines| == 0 then []
    else
      var rest := Kept(lines[1..], version);
      match RewriteLine(lines[0], version)
      case None => rest
      case Some(l) => [l] + rest
  }

  function Concat(parts: seq<string>): string
  {
    if |parts| == 0 then "" else parts[0] + Concat(parts[1..])
  }

  /** `''.join(l for l in lines if l is not None)`. */
  function JoinPresent(lines: seq<Option<string>>): string
  {
    if |lines| == 0 then "" else (if lines[0].Some? then lines[0].value else "") + JoinPresent(lines[1..])
  }

  lemma {:induction false} JoinPresentSnoc(lines: seq<Option<string>>, l: Option<string>)
    ensures JoinPresent(lines + [l]) == JoinPresent(lines) + (if l.Some? then l.value else "")
  {
    if |lines| > 0 {
      assert (lines + [l])[1..] == lines[1..] + [l];
      JoinPresentSnoc(lines[1..], l);
    } else {
      assert ([] + [l])[1..] == [];
    }
  }

  lemma {:induction false} JoinPresentKept(lines: seq<string>, version: string)
    ensures JoinPresent(Rewritten(lines, version)) == Concat(Kept(lines, version))
  {
    var rewritten := Rewritten(lines, version);
    if |lines| > 0 {
      JoinPresentKept(lines[1..], version);
      assert rewritten[1..] == Rewritten(lines[1..], version);
      if RewriteLine(lines[0], version).Some? {
        assert Concat([RewriteLine(lines[0], version).value] + Kept(lines[1..], version))
            == RewriteLine(lines[0], version).value + Concat(Kept(lines[1..], version)) by {
          assert ([RewriteLine(lines[0], version).value] + Kept(lines[1..], version))[1..] == Kept(lines[1..], version);
        }
      }
    }
  }

  /**
   * The in-place loop of `_write_version_into_init`: every entry is replaced or
   * set to None, and the entries that remain are joined into the new contents.
   */
  method WriteVersionIntoInit(initLines: seq<string>, version: string) returns (content: string)
    ensures content == Concat(Kept(initLines, version))
  {
    var lines := new Option<string>[|initLines|](i requires 0 <= i < |initLines| => Some(initLines[i]));
    var q := 0;
    while q < lines.Length
      invariant 0 <= q <= lines.Length == |initLines|
      invariant forall i :: 0 <= i < q ==> lines[i] == RewriteLine(initLines[i], version)
      invariant forall i :: q <= i < lines.Length ==> lines[i] == Some(initLines[i])
    {
      var line := lines[q].value;
      if StartsWith(line, "__version__") {
        lines[q] := Some(VersionLine(version));
      } else if Contains(line, "._packaging") {
        lines[q] := None;
      }
      q := q + 1;
    }
    assert lines[..] == Rewritten(initLines, version);
    content := "";
    var k := 0;
    while k < lines.Length
      invariant 0 <= k <= lines.Length
      invariant content == JoinPresent(lines[..k])
      invariant lines[..] == Rewritten(initLines, version)
    {
      assert lines[..k + 1] == lines[..k] + [lines[k]];
      JoinPresentSnoc(lines[..k], lines[k]);
      if lines[k].Some? {
        content := content + lines[k].value;
      }
      k := k + 1;
    }
    assert lines[..k] == lines[..];
    JoinPresentKept(initLines, version);
  }

  /**
   * What remains: every surviving line is the version line or an original line
   * that neither starts with `__version__` nor mentions `._packaging`; every such
   * original line survives; a `__version__` line in the input yields the version line.
   */
  lemma {:induction false} KeptLines(lines: seq<string>, version: string)
    ensures forall l :: l in Kept(lines, version) ==>
              l == VersionLine(version) || (l in lines && !StartsWith(l, "__version__") && !Contains(l, "._packaging"))
    ensures forall l :: l in lines && !StartsWith(l, "__version__") && !Contains(l, "._packaging") ==> l in Kept(lines, version)
    ensures (exists l :: l in lines && StartsWith(l, "__version__")) ==> VersionLine(version) in Kept(lines, version)
  {
    if |lines| > 0 {
      KeptLines(lines[1..], version);
      assert forall l :: l in lines ==> l == lines[0] || l in lines[1..];
    }
  }

  /** Nothing but removals and replacements: the kept lines are the input lines, rewritten, in their original order. */
  lemma {:induction false} KeptInOrder(lines: seq<string>, version: string, i: nat, j: nat)
    requires i < j < |lines|
    requires RewriteLine(lines[i], version).Some? && RewriteLine(lines[j], version).Some?
    ensures exists a, b :: 0 <= a < b < |Kept(lines, version)| &&
              Kept(lines, version)[a] == RewriteLine(lines[i], version).value &&
              Kept(lines, version)[b] == RewriteLine(lines[j], version).value
  {
    var a := KeptIndex(lines, version, i);
    var b := KeptIndex(lines, version, j);
    KeptIndexMonotone(lines, version, i, j);
  }

  /** Where line `i` lands among the kept lines. */
  ghost function KeptIndex(lines: seq<string>, version: string, i: nat): (a: nat)
    requires i < |lines| && RewriteLine(lines[i], version).Some?
    ensures a < |Kept(lines, version)| && Kept(lines, version)[a] == RewriteLine(lines[i], version).value
  {
    if i == 0 then 0
    else
      var a := KeptIndex(lines[1..], version, i - 1);
      if RewriteLine(lines[0], version).Some? then a + 1 else a
  }

  lemma {:induction false} KeptIndexMonotone(lines: seq<string>, version: string, i: nat, j: nat)
    requires i < j < |lines|
    requires RewriteLine(lines[i], version).Some? && RewriteLine(lines[j], version).Some?
    ensures KeptIndex(lines, version, i) < KeptIndex(lines, version, j)
  {
    if i > 0 {
      KeptIndexMonotone(lines[1..], version, i - 1, j - 1);
    }
  }

  /** Rewriting is idempotent: rewriting the kept lines again with the same version changes nothing. */
  lemma {:induction false} RewriteIdempotent(lines: seq<string>, version: string)
    ensures Kept(Kept(lines, version), version) == Kept(lines, version)
  {
    if |lines| > 0 {
      RewriteIdempotent(lines[1..], version);
      var rest := Kept(lines[1..], version);
      match RewriteLine(lines[0], version)
      case None =>
      case Some(l) =>
        assert RewriteLine(l, version) == Some(l) by {
          if StartsWith(lines[0], "__version__") {
            assert StartsWith(l, "__version__");
          }
        }
        assert ([l] + rest)[1..] == rest;
    }
  }
}
