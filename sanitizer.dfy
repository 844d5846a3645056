/** `Sanitize` from pkg/sanitizer.go: a replace-all of the character class
    `[^a-zA-Z0-9\-]` by the empty string, i.e. a filter that keeps ASCII
    letters, ASCII digits and the hyphen. */
module Sanitizer {

  /** The characters the regular expression does NOT match. */
  predicate Allowed(c: char) {
    ('a' <= c <= 'z') || ('A' <= c <= 'Z') || ('0' <= c <= '9') || c == '-'
  }

  function Sanitize(s: string): (r: string)
    ensures forall i :: 0 <= i < |r| ==> Allowed(r[i])
    ensures |r| <= |s|
  {
    if s == [] then []
    else if Allowed(s[0]) then [s[0]] + Sanitize(s[1..])
    else Sanitize(s[1..])
  }

  /** Sanitizing distributes over concatenation: every character is judged on
      its own, so the kept characters stay in their relative order. */
  lemma {:induction false} SanitizeAppend(a: string, b: string)
    ensures Sanitize(a + b) == Sanitize(a) + Sanitize(b)
  {
    if a == [] {
      assert a + b == b;
    } else {
      assert (a + b)[1..] == a[1..] + b;
      SanitizeAppend(a[1..], b);
    }
  }

  /** Exactly the other characters are deleted: an allowed character occurs
      as often in the result as in the input, any other character never. */
  lemma {:induction false} SanitizeCounts(s: string, c: char)
    ensures multiset(Sanitize(s))[c] == if Allowed(c) then multiset(s)[c] else 0
  {
    if s != [] {
      SanitizeCounts(s[1..], c);
      assert s == [s[0]] + s[1..];
      assert multiset(s) == multiset([s[0]]) + multiset(s[1..]);
      if Allowed(s[0]) {
        assert multiset(Sanitize(s)) == multiset([s[0]]) + multiset(Sanitize(s[1..]));
      }
    }
  }

  /** A string made of allowed characters only is left as it is. */
  lemma {:induction false} SanitizeIdentity(s: string)
    requires forall i :: 0 <= i < |s| ==> Allowed(s[i])
    ensures Sanitize(s) == s
  {
    if s != [] {
      SanitizeIdentity(s[1..]);
    }
  }

  lemma SanitizeIdempotent(s: string)
    ensures Sanitize(Sanitize(s)) == Sanitize(s)
  {
    SanitizeIdentity(Sanitize(s));
  }

  /** The cases of pkg/sanitizer_test.go: empty, identity, no space, no quote. */
  lemma SanitizeExamples()
    ensures Sanitize("") == ""
    ensures Sanitize("a-B-1") == "a-B-1"
    ensures Sanitize("a B 1") == "aB1"
    ensures Sanitize("a'B'1") == "aB1"
  {
    SanitizeIdentity("a-B-1");
    SanitizeDropped("a B 1", ' ');
    SanitizeDropped("a'B'1", '\'');
  }

  /** `a?B?1` with `?` a space or a quote loses both. */
  lemma SanitizeDropped(s: string, c: char)
    requires c == ' ' || c == '\''
    requires s == ['a', c, 'B', c, '1']
    ensures Sanitize(s) == "aB1"
  {
    assert !Allowed(c);
    assert Sanitize(s[4..]) == "1";
    assert Sanitize(s[3..]) == "1";
    assert Sanitize(s[2..]) == "B1";
    assert Sanitize(s[1..]) == "B1";
  }
}
