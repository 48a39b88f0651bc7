/** The contact form's e-mail test, the regular expression
    `^[^\s@]+@[^\s@]+\.[^\s@]+$` applied to the trimmed field value. */
module EmailCheck {
  import opened Whitespace

  /** A character of the class `[^\s@]`. */
  predicate Plain(c: char) {
    !IsSpace(c) && c != '@'
  }

  /** A match of `[^\s@]+`: one or more plain characters. */
  predicate PlainRun(s: string) {
    |s| > 0 && forall i | 0 <= i < |s| :: Plain(s[i])
  }

  /** The whole of `s` matches the pattern with its `@` at index `a` and
      its literal `.` at index `d`: run, "@", run, ".", run. */
  predicate SplitsAt(s: string, a: int, d: int) {
    0 <= a < d < |s| && s[a] == '@' && s[d] == '.' &&
    PlainRun(s[..a]) && PlainRun(s[a + 1..d]) && PlainRun(s[d + 1..])
  }

  /** The regular expression test: some choice of the `@` and of the
      literal `.` splits `s` into three plain runs. */
  predicate EmailPattern(s: string)
    ensures EmailPattern(s) ==> |s| >= 5 && s[0] != '@' && s[|s| - 1] != '@'
  {
    exists a, d | 0 <= a < |s| && 0 <= d < |s| :: SplitsAt(s, a, d)
  }

  /** `s` has a single `@`, at index `a`. */
  predicate OnlyAtSignAt(s: string, a: int) {
    0 <= a < |s| && s[a] == '@' && forall j | 0 <= j < |s| && j != a :: s[j] != '@'
  }

  /** The pattern described character by character: no white space, exactly
      one `@` with something before it, and after the `@` a `.` that has at
      least one character on each side. */
  predicate EmailShape(s: string) {
    (forall i | 0 <= i < |s| :: !IsSpace(s[i])) &&
    exists a | 0 < a < |s| :: OnlyAtSignAt(s, a) && exists d | a + 2 <= d <= |s| - 2 :: s[d] == '.'
  }

  /** A run boundary: every index of `s` lies in a run, or is the `@` or the `.`. */
  lemma SplitCovers(s: string, a: int, d: int, i: int)
    requires SplitsAt(s, a, d) && 0 <= i < |s|
    ensures !IsSpace(s[i])
    ensures s[i] == '@' ==> i == a
  {
    if i < a {
      assert s[i] == s[..a][i];
    } else if a < i < d {
      assert s[i] == s[a + 1..d][i - a - 1];
    } else if d < i {
      assert s[i] == s[d + 1..][i - d - 1];
    }
  }

  /** The regular expression and the character-by-character description
      accept the same strings. */
  lemma EmailPatternIff(s: string)
    ensures EmailPattern(s) <==> EmailShape(s)
  {
    if EmailPattern(s) {
      var a, d :| 0 <= a < |s| && 0 <= d < |s| && SplitsAt(s, a, d);
      forall i | 0 <= i < |s| ensures !IsSpace(s[i]) { SplitCovers(s, a, d, i); }
      forall j | 0 <= j < |s| && j != a ensures s[j] != '@' { SplitCovers(s, a, d, j); }
      assert |s[..a]| > 0 && |s[a + 1..d]| > 0 && |s[d + 1..]| > 0;
      assert OnlyAtSignAt(s, a);
    }
    if EmailShape(s) {
      var a :| 0 < a < |s| && OnlyAtSignAt(s, a) && exists d | a + 2 <= d <= |s| - 2 :: s[d] == '.';
      var d :| a + 2 <= d <= |s| - 2 && s[d] == '.';
      var before, between, after := s[..a], s[a + 1..d], s[d + 1..];
      forall i | 0 <= i < |before| ensures Plain(before[i]) { assert before[i] == s[i]; }
      forall i | 0 <= i < |between| ensures Plain(between[i]) { assert between[i] == s[a + 1 + i]; }
      forall i | 0 <= i < |after| ensures Plain(after[i]) { assert after[i] == s[d + 1 + i]; }
      assert SplitsAt(s, a, d);
    }
  }

  /** The examples a reader would try first: a plain address passes, an
      address without a dot after the `@` and the empty string fail. */
  lemma EmailExamples()
    ensures EmailPattern("a@b.co")
    ensures !EmailPattern("a@b")
    ensures !EmailPattern("")
    ensures !EmailPattern("a@@b.co") && !EmailPattern("@b.co") && !EmailPattern("a@.co")
  {
    assert SplitsAt("a@b.co", 1, 3) by {
      assert "a@b.co"[..1] == "a" && "a@b.co"[2..3] == "b" && "a@b.co"[4..] == "co";
    }
    EmailPatternIff("a@b");
    var twoAts := "a@@b.co";
    assert twoAts[1] == '@' && twoAts[2] == '@';
    EmailPatternIff(twoAts);
    var noLocal := "@b.co";
    assert noLocal[0] == '@' && noLocal[1] != '@' && noLocal[2] != '@' && noLocal[3] != '@' && noLocal[4] != '@';
    EmailPatternIff(noLocal);
    var noDomain := "a@.co";
    assert noDomain[1] == '@' && noDomain[3] != '.' && noDomain[0] != '@';
    EmailPatternIff(noDomain);
  }
}
