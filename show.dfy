/** Displaying a page body: every character outside markup is printed, and
    the markup itself, from a "<" to the next ">", is skipped. The scanner
    keeps one flag, whether it is inside a tag, and looks at one character at
    a time. Printing is modelled as appending to the returned text. */
module Display {

  /** The scanner's flag after it has read `s`: the last bracket it saw was a
      "<" (a string with no bracket leaves the flag at its initial `false`). */
  function InTagAfter(s: string): (b: bool)
    ensures b ==> '<' in s
    ensures '>' !in s ==> (b <==> '<' in s)
  {
    if s == [] then false
    else
      var prefix, c := s[..|s| - 1], s[|s| - 1];
      assert s == prefix + [c];
      if c == '<' then true
      else if c == '>' then false
      else InTagAfter(prefix)
  }

  /** What the scanner has printed after reading `s`: each character that is
      not a bracket and is read while the flag is down. */
  function Visible(s: string): (r: string)
    ensures |r| <= |s|
  {
    if s == [] then []
    else
      var prefix, c := s[..|s| - 1], s[|s| - 1];
      if c != '<' && c != '>' && !InTagAfter(prefix) then Visible(prefix) + [c]
      else Visible(prefix)
  }

  /** Splitting off the last character of `x + [c]`. */
  lemma LastChar(x: string, c: char)
    ensures (x + [c])[..|x|] == x && (x + [c])[|x|] == c
  {
  }

  /** `show(body)`: scan the body once, raising the flag at "<", lowering it
      at ">" and printing every other character read while it is down. */
  method Show(body: string) returns (printed: string)
    ensures printed == Visible(body)
  {
    var inTag := false;
    printed := [];
    for i := 0 to |body|
      invariant inTag == InTagAfter(body[..i])
      invariant printed == Visible(body[..i])
    {
      var c := body[i];
      assert body[..i + 1] == body[..i] + [c];
      LastChar(body[..i], c);
      if c == '<' {
        inTag := true;
      } else if c == '>' {
        inTag := false;
      } else if !inTag {
        printed := printed + [c];
      }
    }
    assert body[..|body|] == body;
  }

  /** No ">" stands strictly between positions `j` and `k`. */
  ghost predicate Unclosed(s: string, j: nat, k: nat)
    requires j < k <= |s|
  {
    '>' !in s[j + 1..k]
  }

  /** Position `k` of `s` lies inside markup: some "<" before it is not
      followed by a ">" before `k`. */
  ghost predicate Enclosed(s: string, k: nat)
    requires k <= |s|
  {
    exists j: nat :: j < k && s[j] == '<' && Unclosed(s, j, k)
  }

  /** The character at `k` is one that should be shown: it is not a bracket
      and lies outside markup. */
  ghost predicate Emitted(s: string, k: nat)
    requires k < |s|
  {
    s[k] != '<' && s[k] != '>' && !Enclosed(s, k)
  }

  /** The scanner's flag before position `k` is up exactly when `k` lies
      inside markup. */
  lemma {:induction false} InTagIffEnclosed(s: string, k: nat)
    requires k <= |s|
    ensures InTagAfter(s[..k]) <==> Enclosed(s, k)
  {
    if k > 0 {
      var c := s[k - 1];
      assert s[..k] == s[..k - 1] + [c];
      LastChar(s[..k - 1], c);
      if c == '<' {
        assert s[k..k] == [];
      } else if c == '>' {
        forall j: nat | j < k - 1
          ensures !Unclosed(s, j, k)
        {
          assert s[j + 1..k][k - 2 - j] == '>';
        }
      } else {
        InTagIffEnclosed(s, k - 1);
        forall j: nat | j < k - 1
          ensures Unclosed(s, j, k) <==> Unclosed(s, j, k - 1)
        {
          assert s[j + 1..k] == s[j + 1..k - 1] + [c];
        }
      }
    }
  }

  /** The positions before `n` whose characters should be shown, in increasing order. */
  ghost function KeptPositions(s: string, n: nat): (ks: seq<nat>)
    requires n <= |s|
    ensures forall i :: 0 <= i < |ks| ==> ks[i] < n && Emitted(s, ks[i])
    ensures forall i, j :: 0 <= i < j < |ks| ==> ks[i] < ks[j]
    ensures forall k :: 0 <= k < n && Emitted(s, k) ==> k in ks
  {
    if n == 0 then []
    else KeptPositions(s, n - 1) + (if Emitted(s, n - 1) then [n - 1] else [])
  }

  /** What has been printed after reading the first `n` characters is exactly
      the characters at the kept positions, in order: the output is the
      subsequence of the input made of the characters outside markup. */
  lemma {:induction false} VisibleIsKept(s: string, n: nat)
    requires n <= |s|
    ensures var r, ks := Visible(s[..n]), KeptPositions(s, n);
      |r| == |ks| && forall i :: 0 <= i < |r| ==> r[i] == s[ks[i]]
  {
    if n > 0 {
      var c := s[n - 1];
      assert s[..n] == s[..n - 1] + [c];
      LastChar(s[..n - 1], c);
      VisibleIsKept(s, n - 1);
      InTagIffEnclosed(s, n - 1);
    }
  }

  /** `show` prints exactly the characters of the body outside markup, in order. */
  lemma ShowPrintsUnenclosed(body: string)
    ensures var r, ks := Visible(body), KeptPositions(body, |body|);
      |r| == |ks| && forall i :: 0 <= i < |r| ==> r[i] == body[ks[i]]
  {
    VisibleIsKept(body, |body|);
    assert body[..|body|] == body;
  }

  /** No bracket is ever printed. */
  lemma {:induction false} VisibleHasNoBrackets(s: string)
    ensures '<' !in Visible(s) && '>' !in Visible(s)
  {
    if s != [] {
      VisibleHasNoBrackets(s[..|s| - 1]);
    }
  }

  /** A body without markup is printed unchanged and leaves the flag down. */
  lemma {:induction false} NoMarkupUnchanged(s: string)
    requires '<' !in s && '>' !in s
    ensures Visible(s) == s && !InTagAfter(s)
  {
    if s != [] {
      var prefix := s[..|s| - 1];
      assert s == prefix + [s[|s| - 1]];
      NoMarkupUnchanged(prefix);
    }
  }

  /** Printing what was printed changes nothing. */
  lemma VisibleIdempotent(s: string)
    ensures Visible(Visible(s)) == Visible(s)
  {
    VisibleHasNoBrackets(s);
    NoMarkupUnchanged(Visible(s));
  }

  /** A ">" lowers the flag whatever it was, even with no "<" before it: it is
      dropped, and the scan after it goes on as if from the start. */
  lemma {:induction false} StrayCloseResets(p: string, q: string)
    ensures Visible(p + ">" + q) == Visible(p) + Visible(q)
    ensures InTagAfter(p + ">" + q) == InTagAfter(q)
  {
    if q == [] {
      assert p + ">" + q == p + ['>'];
      LastChar(p, '>');
    } else {
      var q', c := q[..|q| - 1], q[|q| - 1];
      assert q == q' + [c];
      assert p + ">" + q == (p + ">" + q') + [c];
      LastChar(p + ">" + q', c);
      LastChar(q', c);
      StrayCloseResets(p, q');
    }
  }

  /** A "<" with no ">" after it hides everything to the end of the body. */
  lemma {:induction false} UnterminatedSuppresses(p: string, q: string)
    requires '>' !in q
    ensures Visible(p + "<" + q) == Visible(p)
    ensures InTagAfter(p + "<" + q)
  {
    if q == [] {
      assert p + "<" + q == p + ['<'];
      LastChar(p, '<');
    } else {
      var q', c := q[..|q| - 1], q[|q| - 1];
      assert q == q' + [c];
      assert p + "<" + q == (p + "<" + q') + [c];
      LastChar(p + "<" + q', c);
      UnterminatedSuppresses(p, q');
    }
  }
}
