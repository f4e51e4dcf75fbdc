/**
 * A hand-written matcher for the fixed regular expression
 *
 *     /(?:^|[^0-9.])(\d+\.\d+\.\d+)(?:$|[^0-9.])/
 *
 * run the way `String.prototype.match` runs a non-global pattern: the first
 * match at the least start index. Every `\d+` in the pattern must be followed
 * by `.`, by a character outside `[0-9.]` or by the end of the input, none of
 * which is a digit, so backtracking never helps and greedy maximal digit runs
 * are exact.
 *
 * `IsMatch` is the declarative reading of the pattern; `Exec` is the scan, and
 * `ExecSpec` proves that the scan returns the leftmost match and returns
 * nothing exactly when there is no match.
 */
module SemverRegex {
  import opened Wrappers

  /** `\d` (no `u` flag): the ASCII digits. */
  predicate IsDigit(c: char) {
    '0' <= c <= '9'
  }

  /** `[^0-9.]` */
  predicate IsBoundary(c: char) {
    !IsDigit(c) && c != '.'
  }

  /** `t[a..b]` is all digits. */
  predicate DigitsIn(t: string, a: int, b: int) {
    forall x | a <= x < b && 0 <= x < |t| :: IsDigit(t[x])
  }

  /** `t` splits at dots `i` and `j` into three non-empty digit runs. */
  predicate DotsAt(t: string, i: int, j: int) {
    0 < i && i + 1 < j && j + 1 < |t|
    && DigitsIn(t, 0, i) && t[i] == '.'
    && DigitsIn(t, i + 1, j) && t[j] == '.'
    && DigitsIn(t, j + 1, |t|)
  }

  /** The whole of `t` is `\d+\.\d+\.\d+`: what capture group 1 holds. */
  ghost predicate IsToken(t: string) {
    exists i, j :: DotsAt(t, i, j)
  }

  /**
   * Capture group 1 can be `s[k..e]`: a token, with the start of the input or
   * a `[^0-9.]` character before it and the end of the input or a `[^0-9.]`
   * character after it.
   */
  ghost predicate Candidate(s: string, k: nat, e: nat) {
    k < e <= |s| && IsToken(s[k..e])
    && (k == 0 || IsBoundary(s[k - 1]))
    && (e == |s| || IsBoundary(s[e]))
  }

  /**
   * A match object: `index` is `match.index`, `s[index..end]` is `match[0]`
   * and `s[groupStart..groupEnd]` is `match[1]`.
   */
  datatype SemverMatch = SemverMatch(index: nat, groupStart: nat, groupEnd: nat, end: nat)

  /**
   * `m` is a match of the pattern in `s`: the left alternative consumes the
   * character before the group unless the group starts the input, and the
   * right alternative consumes the character after it unless it ends the input.
   */
  ghost predicate IsMatch(s: string, m: SemverMatch) {
    Candidate(s, m.groupStart, m.groupEnd)
    && m.index == (if m.groupStart == 0 then 0 else m.groupStart - 1)
    && m.end == (if m.groupEnd == |s| then m.groupEnd else m.groupEnd + 1)
  }

  /** `m` is a match and no match starts further left. */
  ghost predicate IsLeftmost(s: string, m: SemverMatch) {
    IsMatch(s, m) && forall m' | IsMatch(s, m') :: m.index <= m'.index
  }

  /** A token is at least `d.d.d` long and begins and ends with a digit. */
  lemma TokenShape(t: string)
    requires IsToken(t)
    ensures |t| >= 5 && IsDigit(t[0]) && IsDigit(t[|t| - 1])
  {
    var i, j :| DotsAt(t, i, j);
  }

  /** Length of the maximal digit run of `s` at `i`: greedy `\d+`. */
  function DigitRun(s: string, i: nat): (n: nat)
    requires i <= |s|
    ensures i + n <= |s|
    ensures i + n == |s| || !IsDigit(s[i + n])
    decreases |s| - i
  {
    if i < |s| && IsDigit(s[i]) then 1 + DigitRun(s, i + 1) else 0
  }

  /** Everything DigitRun steps over is a digit. */
  lemma {:induction false} DigitRunDigits(s: string, i: nat)
    requires i <= |s|
    ensures DigitsIn(s, i, i + DigitRun(s, i))
    decreases |s| - i
  {
    if i < |s| && IsDigit(s[i]) {
      DigitRunDigits(s, i + 1);
    }
  }

  /** A digit run that ends at a non-digit or the end is what DigitRun finds. */
  lemma {:induction false} DigitRunExact(s: string, a: nat, b: nat)
    requires a <= b <= |s|
    requires DigitsIn(s, a, b)
    requires b == |s| || !IsDigit(s[b])
    ensures DigitRun(s, a) == b - a
    decreases b - a
  {
    if a < b {
      DigitRunExact(s, a + 1, b);
    }
  }

  /**
   * `\d+\.\d+\.\d+(?=$|[^0-9.])` at `k`: the end of the group when the token
   * starting at `k` is followed by the end of the input or a boundary.
   */
  function TokenEnd(s: string, k: nat): (r: Option<nat>)
    requires k <= |s|
    ensures r.Some? ==> k < r.value <= |s| && IsToken(s[k..r.value])
    ensures r.Some? ==> r.value == |s| || IsBoundary(s[r.value])
  {
    var a := k + DigitRun(s, k);
    if a == k || a == |s| || s[a] != '.' then None
    else
      var b := a + 1 + DigitRun(s, a + 1);
      if b == a + 1 || b == |s| || s[b] != '.' then None
      else
        var c := b + 1 + DigitRun(s, b + 1);
        if c == b + 1 || (c < |s| && s[c] == '.') then None
        else
          DigitRunDigits(s, k);
          DigitRunDigits(s, a + 1);
          DigitRunDigits(s, b + 1);
          TokenFromRuns(s, k, a, b, c);
          Some(c)
  }

  /** Three digit runs `s[k..a]`, `s[a+1..b]`, `s[b+1..c]` joined by dots make a token. */
  lemma TokenFromRuns(s: string, k: nat, a: nat, b: nat, c: nat)
    requires k < a && a + 1 < b && b + 1 < c <= |s|
    requires DigitsIn(s, k, a) && s[a] == '.'
    requires DigitsIn(s, a + 1, b) && s[b] == '.'
    requires DigitsIn(s, b + 1, c)
    ensures IsToken(s[k..c])
  {
    assert DotsAt(s[k..c], a - k, b - k);
  }

  /** The group of a match starts with a digit and is at least five characters long. */
  lemma GroupShape(s: string, k: nat, e: nat)
    requires Candidate(s, k, e)
    ensures IsDigit(s[k]) && k + 5 <= e
  {
    TokenShape(s[k..e]);
    assert s[k..e][0] == s[k];
  }

  /** Digits of a slice are digits of the string at the shifted positions. */
  lemma DigitsInSlice(s: string, k: nat, e: nat, x: nat, y: nat)
    requires k <= e <= |s| && x <= y <= e - k
    requires DigitsIn(s[k..e], x, y)
    ensures DigitsIn(s, k + x, k + y)
  {
    forall z | k + x <= z < k + y
      ensures IsDigit(s[z])
    {
      assert s[k..e][z - k] == s[z];
    }
  }

  /** Whenever a token at `k` ends at a boundary `e`, TokenEnd finds exactly `e`. */
  lemma TokenEndComplete(s: string, k: nat, e: nat)
    requires k < e <= |s| && IsToken(s[k..e])
    requires e == |s| || IsBoundary(s[e])
    ensures TokenEnd(s, k) == Some(e)
  {
    var t := s[k..e];
    var i, j :| DotsAt(t, i, j);
    DigitsInSlice(s, k, e, 0, i);
    DigitsInSlice(s, k, e, i + 1, j);
    DigitsInSlice(s, k, e, j + 1, e - k);
    assert s[k + i] == t[i] && s[k + j] == t[j];
    TokenEndOfRuns(s, k, k + i, k + j, e);
  }

  /** Three digit runs joined by dots and followed by a boundary or the end are what TokenEnd finds. */
  lemma TokenEndOfRuns(s: string, k: nat, a: nat, b: nat, e: nat)
    requires k < a && a + 1 < b && b + 1 < e <= |s|
    requires DigitsIn(s, k, a) && s[a] == '.'
    requires DigitsIn(s, a + 1, b) && s[b] == '.'
    requires DigitsIn(s, b + 1, e)
    requires e == |s| || IsBoundary(s[e])
    ensures TokenEnd(s, k) == Some(e)
  {
    DigitRunExact(s, k, a);
    DigitRunExact(s, a + 1, b);
    DigitRunExact(s, b + 1, e);
    TokenEndFromRuns(s, k, a, b, e);
  }

  /** TokenEnd only reads the three digit-run lengths and the characters after them. */
  lemma TokenEndFromRuns(s: string, k: nat, a: nat, b: nat, e: nat)
    requires k < a && a + 1 < b && b + 1 < e <= |s|
    requires DigitRun(s, k) == a - k && s[a] == '.'
    requires DigitRun(s, a + 1) == b - a - 1 && s[b] == '.'
    requires DigitRun(s, b + 1) == e - b - 1
    requires e == |s| || s[e] != '.'
    ensures TokenEnd(s, k) == Some(e)
  {
  }

  /** The match that starts at index `p`, if any. */
  function MatchAt(s: string, p: nat): (r: Option<SemverMatch>)
    requires p <= |s|
    ensures r.Some? ==> IsMatch(s, r.value) && r.value.index == p
  {
    if p == 0 && TokenEnd(s, 0).Some? then
      var e := TokenEnd(s, 0).value;
      Some(SemverMatch(0, 0, e, if e == |s| then e else e + 1))
    else if p < |s| && IsBoundary(s[p]) && TokenEnd(s, p + 1).Some? then
      var e := TokenEnd(s, p + 1).value;
      Some(SemverMatch(p, p + 1, e, if e == |s| then e else e + 1))
    else
      None
  }

  /** Every match is the one MatchAt finds at its index; so a match is fixed by its index. */
  lemma MatchAtComplete(s: string, m: SemverMatch)
    requires IsMatch(s, m)
    ensures MatchAt(s, m.index) == Some(m)
  {
    TokenEndComplete(s, m.groupStart, m.groupEnd);
    if m.groupStart == 0 {
      MatchAtStart(s, m.groupEnd);
    } else {
      MatchAtBoundary(s, m.index, m.groupEnd);
    }
  }

  /** The `^` alternative: a token at the start of the input. */
  lemma MatchAtStart(s: string, e: nat)
    requires TokenEnd(s, 0) == Some(e)
    ensures MatchAt(s, 0) == Some(SemverMatch(0, 0, e, if e == |s| then e else e + 1))
  {
  }

  /** The `[^0-9.]` alternative: a boundary character at `p` and a token right after it. */
  lemma MatchAtBoundary(s: string, p: nat, e: nat)
    requires p < |s| && IsBoundary(s[p])
    requires TokenEnd(s, p + 1) == Some(e)
    ensures MatchAt(s, p) == Some(SemverMatch(p, p + 1, e, if e == |s| then e else e + 1))
  {
    if p == 0 {
      assert DigitRun(s, 0) == 0;
    }
  }

  /** Try every start index from `p` on, left to right. */
  function ExecFrom(s: string, p: nat): (r: Option<SemverMatch>)
    requires p <= |s|
    ensures r.Some? ==> IsMatch(s, r.value) && p <= r.value.index
    decreases |s| - p
  {
    match MatchAt(s, p)
    case Some(m) => Some(m)
    case None => if p == |s| then None else ExecFrom(s, p + 1)
  }

  /** `s.match(pattern)` */
  function Exec(s: string): (r: Option<SemverMatch>)
    ensures r.Some? ==> IsMatch(s, r.value)
  {
    ExecFrom(s, 0)
  }

  /** The scan from `p` skips no match that starts at `p` or later. */
  lemma {:induction false} ExecFromLeftmost(s: string, p: nat, m: SemverMatch)
    requires p <= |s|
    requires IsMatch(s, m) && p <= m.index
    ensures ExecFrom(s, p).Some? && ExecFrom(s, p).value.index <= m.index
    decreases |s| - p
  {
    ExecFromStep(s, p);
    if m.index == p {
      MatchAtComplete(s, m);
    } else if MatchAt(s, p).None? {
      ExecFromLeftmost(s, p + 1, m);
    }
  }

  /** One step of the scan: the match at `p` if there is one, else the scan from `p + 1`. */
  lemma ExecFromStep(s: string, p: nat)
    requires p <= |s|
    ensures MatchAt(s, p).Some? ==> ExecFrom(s, p) == MatchAt(s, p)
    ensures MatchAt(s, p).None? && p < |s| ==> ExecFrom(s, p) == ExecFrom(s, p + 1)
  {
  }

  /**
   * The scan implements the pattern: it finds nothing exactly when there is
   * no match, and otherwise the leftmost match, which is unique.
   */
  lemma ExecSpec(s: string)
    ensures Exec(s).None? <==> forall m :: !IsMatch(s, m)
    ensures Exec(s).Some? ==> IsLeftmost(s, Exec(s).value)
    ensures forall m | IsLeftmost(s, m) :: Exec(s) == Some(m)
  {
    forall m | IsMatch(s, m)
      ensures Exec(s).Some? && Exec(s).value.index <= m.index
    {
      ExecFromLeftmost(s, 0, m);
    }
    forall m | IsLeftmost(s, m)
      ensures Exec(s) == Some(m)
    {
      var r := Exec(s).value;
      MatchAtComplete(s, m);
      MatchAtComplete(s, r);
    }
  }

  /** Text without digits holds no match. */
  lemma NoDigitsNoMatch(s: string)
    requires forall i | 0 <= i < |s| :: !IsDigit(s[i])
    ensures Exec(s).None?
  {
    forall m | IsMatch(s, m)
      ensures false
    {
      GroupShape(s, m.groupStart, m.groupEnd);
    }
    ExecSpec(s);
  }

  /**
   * A token preceded by a digit-free prefix that is empty or ends in a
   * `[^0-9.]` character: the leftmost match has the token as its group and
   * starts at the prefix's last character.
   */
  lemma ExecAfterPrefix(p: string, v: string)
    requires IsToken(v)
    requires forall i | 0 <= i < |p| :: !IsDigit(p[i])
    requires p == [] || IsBoundary(p[|p| - 1])
    ensures var s := p + v;
      Exec(s) == Some(SemverMatch(if p == [] then 0 else |p| - 1, |p|, |s|, |s|))
  {
    var s := p + v;
    var m := SemverMatch(if p == [] then 0 else |p| - 1, |p|, |s|, |s|);
    assert s[|p|..|s|] == v;
    TokenShape(v);
    assert IsMatch(s, m);
    forall m' | IsMatch(s, m')
      ensures m.index <= m'.index
    {
      GroupShape(s, m'.groupStart, m'.groupEnd);
    }
    ExecSpec(s);
  }
}
