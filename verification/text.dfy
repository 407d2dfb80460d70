/**
 Case-insensitive substring matching, as the catalogue search uses it on the
 Title, Author and Genre columns. Case folding is ASCII lower-casing, and a
 query is matched as a plain string of characters.
 */
module Text {

  predicate IsUpper(c: char) {
    'A' <= c <= 'Z'
  }

  /** ASCII lower-casing of one character; every other character is kept. */
  function LowerChar(c: char): (r: char)
    ensures !IsUpper(r)
    ensures !IsUpper(c) ==> r == c
    ensures IsUpper(c) ==> 'a' <= r <= 'z' && r as int - c as int == 'a' as int - 'A' as int
  {
    if IsUpper(c) then (c as int - 'A' as int + 'a' as int) as char else c
  }

  /** The string with every ASCII capital replaced by its small letter. */
  function Lower(s: string): (r: string)
    ensures |r| == |s|
    ensures forall i :: 0 <= i < |s| ==> r[i] == LowerChar(s[i])
  {
    seq(|s|, i requires 0 <= i < |s| => LowerChar(s[i]))
  }

  /** `q` occurs in `s` starting at position `i`. */
  ghost predicate OccursAt(s: string, q: string, i: int) {
    0 <= i && i + |q| <= |s| && s[i..i + |q|] == q
  }

  /** Whether `q` occurs in `s` as a run of consecutive characters. */
  function Contains(s: string, q: string): bool
    decreases |s|
  {
    if |q| > |s| then false
    else if s[..|q|] == q then true
    else Contains(s[1..], q)
  }

  /** Contains agrees with the positional definition of an occurrence. */
  lemma {:induction false} ContainsIffOccurs(s: string, q: string)
    ensures Contains(s, q) <==> exists i :: OccursAt(s, q, i)
    decreases |s|
  {
    if |q| > |s| {
    } else if s[..|q|] == q {
      assert OccursAt(s, q, 0);
    } else {
      var t := s[1..];
      ContainsIffOccurs(t, q);
      if Contains(t, q) {
        var j :| OccursAt(t, q, j);
        assert s[j + 1..j + 1 + |q|] == t[j..j + |q|];
        assert OccursAt(s, q, j + 1);
      } else {
        forall i | OccursAt(s, q, i)
          ensures false
        {
          assert i != 0;
          assert t[i - 1..i - 1 + |q|] == s[i..i + |q|];
          assert OccursAt(t, q, i - 1);
        }
      }
    }
  }

  /** Whether `q` occurs in `s` when ASCII letter case is ignored on both sides. */
  function ContainsIgnoringCase(s: string, q: string): bool {
    Contains(Lower(s), Lower(q))
  }

  /** Every string contains itself, whatever its case. */
  lemma ContainsIgnoringCaseSelf(s: string)
    ensures ContainsIgnoringCase(s, s)
  {
  }
}
