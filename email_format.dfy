/**
 * The e-mail format check of the REST handlers: the regular expression
 * `^[^\s@]+@[^\s@]+\.[^\s@]+$` tested against the submitted address.
 *
 * `MatchesEmailPattern` reads the expression declaratively; `IsEmailFormat`
 * is a left-to-right scanner (the automaton of the expression), and
 * `ScannerMatchesPattern` proves the two agree on every string.
 */
module EmailFormat {

  /** JavaScript's `\s`: the ECMAScript WhiteSpace and LineTerminator characters. */
  predicate IsWs(c: char) {
    || c == '\t' || c == '\n' || c == '\U{B}' || c == '\U{C}' || c == '\r' || c == ' '
    || c == '\U{A0}' || c == '\U{1680}' || ('\U{2000}' <= c <= '\U{200A}')
    || c == '\U{2028}' || c == '\U{2029}' || c == '\U{202F}' || c == '\U{205F}'
    || c == '\U{3000}' || c == '\U{FEFF}'
  }

  /** The character class `[^\s@]`. */
  predicate IsPlain(c: char) {
    !IsWs(c) && c != '@'
  }

  /** `s` has an '@' at index `i > 0` and every other character is in `[^\s@]`. */
  ghost predicate AtSplit(s: string, i: int) {
    && 0 < i < |s|
    && s[i] == '@'
    && forall k | 0 <= k < |s| && k != i :: IsPlain(s[k])
  }

  /**
   * `s` is `L '@' A '.' B` with `L`, `A`, `B` non-empty runs of `[^\s@]`:
   * the '@' sits at `i`, the separating '.' at `j`.
   */
  ghost predicate MatchesEmailPattern(s: string) {
    exists i, j | 0 <= i < j < |s| :: AtSplit(s, i) && i + 1 < j < |s| - 1 && s[j] == '.'
  }

  /** How far the scanner has got in `L '@' A '.' B`. */
  datatype Phase =
    | Start    // nothing read
    | Local    // inside L
    | AtSign   // just read the '@'
    | Domain   // inside the domain, no '.' after its first character yet
    | Dot      // the last character is such a '.'
    | Accept   // a complete match so far
    | Reject   // no continuation can match

  function Step(ph: Phase, c: char): Phase {
    if IsWs(c) then Reject
    else if c == '@' then (if ph == Local then AtSign else Reject)
    else match ph
      case Start => Local
      case Local => Local
      case AtSign => Domain
      case Domain => if c == '.' then Dot else Domain
      case Dot => Accept
      case Accept => Accept
      case Reject => Reject
  }

  /** Feeds `s` to the scanner, starting in phase `ph`. */
  function Run(ph: Phase, s: string): Phase
    decreases |s|
  {
    if s == [] then ph else Run(Step(ph, s[0]), s[1..])
  }

  /** The test `emailRegex.test(email)` (index.js lines 67-68 and 104-105), run as the scanner. */
  function IsEmailFormat(s: string): (r: bool)
    ensures r <==> MatchesEmailPattern(s)
  {
    ScannerMatchesPattern(s);
    Run(Start, s) == Accept
  }

  /** What the consumed prefix `p` looks like when the scanner is in phase `ph`. */
  ghost predicate Describes(ph: Phase, p: string) {
    match ph
    case Start => p == []
    case Local => |p| > 0 && forall k | 0 <= k < |p| :: IsPlain(p[k])
    case AtSign => AtSplit(p, |p| - 1)
    case Domain =>
      exists i | 0 <= i < |p| :: AtSplit(p, i) && i + 1 < |p| && forall k | i + 1 < k < |p| :: p[k] != '.'
    case Dot =>
      exists i | 0 <= i < |p| ::
        AtSplit(p, i) && i + 2 < |p| && p[|p| - 1] == '.' && forall k | i + 1 < k < |p| - 1 :: p[k] != '.'
    case Accept => MatchesEmailPattern(p)
    case Reject => forall t :: !MatchesEmailPattern(p + t)
  }

  /** A whitespace character anywhere rules a match out. */
  lemma NoMatchWithWs(s: string, k: int)
    requires 0 <= k < |s| && IsWs(s[k])
    ensures !MatchesEmailPattern(s)
  {
    forall i | 0 <= i < |s|
      ensures !AtSplit(s, i)
    {
      if k != i {
        assert !IsPlain(s[k]);
      }
    }
  }

  /** Two '@' characters, or one at the very start, rule a match out. */
  lemma NoMatchWithStrayAt(s: string, a: int, b: int)
    requires 0 <= a < |s| && 0 <= b < |s| && s[a] == '@' && s[b] == '@'
    requires a != b || a == 0
    ensures !MatchesEmailPattern(s)
  {
    forall i | 0 <= i < |s|
      ensures !AtSplit(s, i)
    {
      if i != a {
        assert !IsPlain(s[a]);
      } else if a != b {
        assert !IsPlain(s[b]);
      }
    }
  }

  /** After a character that cannot occur at this point, no continuation matches. */
  lemma RejectIsFinal(p: string, c: char, a: int)
    requires IsWs(c) || (c == '@' && 0 <= a <= |p| && (a < |p| ==> p[a] == '@') && (a == |p| ==> p == []))
    ensures Describes(Reject, p + [c])
  {
    forall t
      ensures !MatchesEmailPattern(p + [c] + t)
    {
      var s := p + [c] + t;
      assert s[|p|] == c;
      if IsWs(c) {
        NoMatchWithWs(s, |p|);
      } else {
        assert s[a] == '@';
        NoMatchWithStrayAt(s, a, |p|);
      }
    }
  }

  /** One step of the scanner keeps `Describes` true of the prefix read so far. */
  lemma {:induction false} StepDescribes(ph: Phase, p: string, c: char)
    requires Describes(ph, p)
    ensures Describes(Step(ph, c), p + [c])
  {
    var q := p + [c];
    assert forall k | 0 <= k < |p| :: q[k] == p[k];
    assert q[|p|] == c;
    if IsWs(c) {
      RejectIsFinal(p, c, 0);
    } else if c == '@' {
      match ph
      case Start => RejectIsFinal(p, c, 0);
      case Local =>
        assert AtSplit(q, |q| - 1);
      case AtSign => RejectIsFinal(p, c, |p| - 1);
      case Domain =>
        var i :| 0 <= i < |p| && AtSplit(p, i) && i + 1 < |p| && forall k | i + 1 < k < |p| :: p[k] != '.';
        RejectIsFinal(p, c, i);
      case Dot =>
        var i :| 0 <= i < |p| && AtSplit(p, i) && i + 2 < |p| && p[|p| - 1] == '.'
          && forall k | i + 1 < k < |p| - 1 :: p[k] != '.';
        RejectIsFinal(p, c, i);
      case Accept =>
        var i, j :| 0 <= i < j < |p| && AtSplit(p, i) && i + 1 < j < |p| - 1 && p[j] == '.';
        RejectIsFinal(p, c, i);
      case Reject =>
        RejectAbsorbs(p, c);
    } else {
      match ph
      case Start =>
      case Local =>
      case AtSign =>
        assert AtSplit(q, |p| - 1);
      case Domain =>
        var i :| 0 <= i < |p| && AtSplit(p, i) && i + 1 < |p| && forall k | i + 1 < k < |p| :: p[k] != '.';
        assert AtSplit(q, i);
      case Dot =>
        var i :| 0 <= i < |p| && AtSplit(p, i) && i + 2 < |p| && p[|p| - 1] == '.'
          && forall k | i + 1 < k < |p| - 1 :: p[k] != '.';
        assert AtSplit(q, i) && i + 1 < |p| - 1 < |q| - 1 && q[|p| - 1] == '.';
      case Accept =>
        var i, j :| 0 <= i < j < |p| && AtSplit(p, i) && i + 1 < j < |p| - 1 && p[j] == '.';
        assert AtSplit(q, i) && i + 1 < j < |q| - 1 && q[j] == '.';
      case Reject =>
        RejectAbsorbs(p, c);
    }
  }

  lemma RejectAbsorbs(p: string, c: char)
    requires Describes(Reject, p)
    ensures Describes(Reject, p + [c])
  {
    forall t
      ensures !MatchesEmailPattern(p + [c] + t)
    {
      assert p + [c] + t == p + ([c] + t);
    }
  }

  /** Running the scanner over `s` from a phase that describes `p` ends in a phase that describes `p + s`. */
  lemma {:induction false} RunDescribes(ph: Phase, p: string, s: string)
    requires Describes(ph, p)
    ensures Describes(Run(ph, s), p + s)
    decreases |s|
  {
    if s == [] {
      assert p + s == p;
    } else {
      StepDescribes(ph, p, s[0]);
      RunDescribes(Step(ph, s[0]), p + [s[0]], s[1..]);
      assert p + [s[0]] + s[1..] == p + s;
    }
  }

  /** A prefix the scanner has not accepted is not a match. */
  lemma NotAcceptedIsNoMatch(ph: Phase, s: string)
    requires Describes(ph, s) && ph != Accept
    ensures !MatchesEmailPattern(s)
  {
    match ph
    case Start =>
    case Local =>
    case AtSign =>
      forall i | 0 <= i < |s| - 1
        ensures !AtSplit(s, i)
      {
        assert !IsPlain(s[|s| - 1]);
      }
    case Domain =>
      var i' :| 0 <= i' < |s| && AtSplit(s, i') && i' + 1 < |s| && forall k | i' + 1 < k < |s| :: s[k] != '.';
      forall i | 0 <= i < |s| && i != i'
        ensures !AtSplit(s, i)
      {
        assert !IsPlain(s[i']);
      }
    case Dot =>
      var i' :| 0 <= i' < |s| && AtSplit(s, i') && i' + 2 < |s| && s[|s| - 1] == '.'
        && forall k | i' + 1 < k < |s| - 1 :: s[k] != '.';
      forall i | 0 <= i < |s| && i != i'
        ensures !AtSplit(s, i)
      {
        assert !IsPlain(s[i']);
      }
    case Reject =>
      assert s + [] == s;
  }

  /** The scanner accepts exactly the strings the regular expression matches. */
  lemma ScannerMatchesPattern(s: string)
    ensures Run(Start, s) == Accept <==> MatchesEmailPattern(s)
  {
    RunDescribes(Start, [], s);
    assert [] + s == s;
    if Run(Start, s) != Accept {
      NotAcceptedIsNoMatch(Run(Start, s), s);
    }
  }

  /** A lower-case letter or a dot: the characters of the seed's addresses. */
  predicate LowerOrDot(c: char) {
    'a' <= c <= 'z' || c == '.'
  }

  /** `L '@' D` with `L` and `D` made of letters and dots matches once `D` has a '.' inside it. */
  lemma ShapedAddress(s: string, i: int, j: int)
    requires 0 < i && i + 1 < j < |s| - 1
    requires s[i] == '@' && s[j] == '.'
    requires forall c | c in s[..i] :: LowerOrDot(c)
    requires forall c | c in s[i + 1..] :: LowerOrDot(c)
    ensures MatchesEmailPattern(s)
  {
    forall k | 0 <= k < |s| && k != i
      ensures IsPlain(s[k])
    {
      if k < i {
        assert s[k] == s[..i][k] && s[..i][k] in s[..i];
        assert LowerOrDot(s[k]);
      } else {
        assert s[k] == s[i + 1..][k - i - 1] && s[i + 1..][k - i - 1] in s[i + 1..];
        assert LowerOrDot(s[k]);
      }
    }
    assert AtSplit(s, i);
  }
}
