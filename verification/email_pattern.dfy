/** The address check both booking forms run: the unanchored regular
    expression `\S+@\S+\.\S+` applied with `RegExp.prototype.test`. */
module EmailPattern {
  import opened Text

  /** A match of `\S+@\S+\.\S+` whose `@` is at `i` and whose `.` is at `j`:
      one non-space character before the `@` suffices for the first `\S+`,
      the middle `\S+` is every character strictly between them, and one
      non-space character after the `.` suffices for the last `\S+`. */
  predicate MatchAt(s: string, i: int, j: int) {
    && 1 <= i && i + 1 < j && j + 1 < |s|
    && s[i] == '@' && s[j] == '.'
    && !IsSpace(s[i - 1]) && !IsSpace(s[j + 1])
    && forall k :: i < k < j ==> !IsSpace(s[k])
  }

  /** `/\S+@\S+\.\S+/.test(s)`: some substring of `s` matches. */
  predicate LooksLikeEmail(s: string) {
    exists i, j | 0 <= i < j < |s| :: MatchAt(s, i, j)
  }

  /** The regular-expression test as a left-to-right scan: for each `@`
      preceded by a non-space character, walk the run of non-space characters
      after it looking for a `.` with a non-space character behind it. */
  method Test(s: string) returns (b: bool)
    ensures b <==> LooksLikeEmail(s)
  {
    var i := 1;
    while i < |s|
      invariant 1 <= i
      invariant forall i', j' :: 0 <= i' < i && 0 <= j' < |s| ==> !MatchAt(s, i', j')
    {
      if s[i] == '@' && !IsSpace(s[i - 1]) {
        var j := i + 1;
        while j < |s| && !IsSpace(s[j])
          invariant i + 1 <= j <= |s|
          invariant forall k :: i < k < j ==> !IsSpace(s[k])
          invariant forall j' :: 0 <= j' < j ==> !MatchAt(s, i, j')
        {
          if j >= i + 2 && s[j] == '.' && j + 1 < |s| && !IsSpace(s[j + 1]) {
            assert MatchAt(s, i, j);
            return true;
          }
          j := j + 1;
        }
        forall j' | j <= j' < |s| ensures !MatchAt(s, i, j') {
          if j' > j {
            assert i < j < j';
          }
        }
      }
      i := i + 1;
    }
    return false;
  }

  /** A blank string never looks like an address: the pattern needs an `@`. */
  lemma BlankIsNotEmail(s: string)
    requires IsBlank(s)
    ensures !LooksLikeEmail(s)
  {
  }

  /** The pattern accepts a plain address and rejects a word without `@`. */
  lemma Examples()
    ensures LooksLikeEmail("a@x.com")
    ensures LooksLikeEmail("jane@example.com")
    ensures !LooksLikeEmail("not-an-email")
    ensures !LooksLikeEmail("a@.com")
  {
    assert MatchAt("a@x.com", 1, 3);
    assert MatchAt("jane@example.com", 4, 12);
    var s := "not-an-email";
    forall i, j | 0 <= i < j < |s| ensures !MatchAt(s, i, j) {
      assert s[i] != '@';
    }
    var t := "a@.com";
    forall i, j | 0 <= i < j < |t| ensures !MatchAt(t, i, j) {
      if t[i] == '@' {
        assert i == 1;
        if j == 2 {
        } else {
          assert t[j] != '.';
        }
      }
    }
  }
}
