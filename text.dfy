/** Substring search as done by `String.prototype.includes`. */
module Text {

  /** `fragment` occurs in `s` at position `i`. */
  ghost predicate OccursAt(s: string, fragment: string, i: int) {
    0 <= i && i + |fragment| <= |s| && s[i..i + |fragment|] == fragment
  }

  /** `s.includes(fragment)`: try every start position from the left. */
  predicate Includes(s: string, fragment: string)
    decreases |s|
  {
    (|fragment| <= |s| && s[..|fragment|] == fragment) || (s != [] && Includes(s[1..], fragment))
  }

  /** An occurrence in the text without its first character is one place later in the text. */
  lemma OccursAtShift(s: string, fragment: string, i: nat)
    requires s != []
    ensures OccursAt(s[1..], fragment, i) <==> OccursAt(s, fragment, i + 1)
  {
    if i + |fragment| <= |s| - 1 {
      assert s[1..][i..i + |fragment|] == s[i + 1..i + 1 + |fragment|];
    }
  }

  /** `Includes` holds exactly when the fragment occurs somewhere in the text. */
  lemma {:induction false} IncludesIff(s: string, fragment: string)
    ensures Includes(s, fragment) <==> exists i :: OccursAt(s, fragment, i)
  {
    var n := |fragment|;
    if n <= |s| {
      assert s[0..n] == s[..n];
    }
    if s != [] {
      IncludesIff(s[1..], fragment);
      if Includes(s, fragment) && !OccursAt(s, fragment, 0) {
        var i :| OccursAt(s[1..], fragment, i);
        OccursAtShift(s, fragment, i);
      }
      if exists i :: OccursAt(s, fragment, i) {
        var i :| OccursAt(s, fragment, i);
        if i > 0 {
          OccursAtShift(s, fragment, i - 1);
        }
      }
    } else {
      if Includes(s, fragment) {
        assert OccursAt(s, fragment, 0);
      }
    }
  }

  /** Every text includes the empty fragment. */
  lemma IncludesEmpty(s: string)
    ensures Includes(s, "")
  {
    assert s[..0] == "";
  }
}
