/** The ASCII character classes of Go's RE2 regular-expression syntax, and the greedy
    run of one class that a `\d+`, `\w+` or `[\w\s]+` consumes. */
module CharClasses {

  /** `\d`: `[0-9]`. */
  predicate IsDigit(c: char)
  {
    '0' <= c <= '9'
  }

  /** `\w`: `[0-9A-Za-z_]`. */
  predicate IsWord(c: char)
  {
    IsDigit(c) || 'A' <= c <= 'Z' || 'a' <= c <= 'z' || c == '_'
  }

  /** `\s`: `[\t\n\f\r ]` (RE2 leaves out the vertical tab). */
  predicate IsSpace(c: char)
  {
    c == '\t' || c == '\n' || c == '\U{0C}' || c == '\r' || c == ' '
  }

  /** The three classes the descriptor grammar uses. */
  datatype Class = Digit | Word | WordOrSpace

  predicate In(k: Class, c: char)
  {
    match k
    case Digit => IsDigit(c)
    case Word => IsWord(c)
    case WordOrSpace => IsWord(c) || IsSpace(c)
  }

  /** Every character of `s` lies in class `k`. */
  predicate All(s: string, k: Class)
  {
    forall i :: 0 <= i < |s| ==> In(k, s[i])
  }

  /** The length of the longest prefix of `s` drawn from class `k`: how far a greedy
      repetition of `k` reaches from the start of `s`. */
  function RunLength(s: string, k: Class): (n: nat)
    ensures n <= |s|
    ensures forall i :: 0 <= i < n ==> In(k, s[i])
    ensures n < |s| ==> !In(k, s[n])
  {
    if s == [] || !In(k, s[0]) then 0 else 1 + RunLength(s[1..], k)
  }

  /** A run of class `k` followed by something outside `k` is exactly what `RunLength`
      consumes. */
  lemma {:induction false} RunOf(u: string, v: string, k: Class)
    requires All(u, k)
    requires v == [] || !In(k, v[0])
    ensures RunLength(u + v, k) == |u|
  {
    if u == [] {
      assert u + v == v;
    } else {
      assert (u + v)[1..] == u[1..] + v;
      RunOf(u[1..], v, k);
    }
  }

  /** Splits `s` after the longest prefix drawn from class `k`. */
  function Split(s: string, k: Class): (r: (string, string))
    ensures r.0 + r.1 == s
    ensures All(r.0, k)
    ensures r.1 == [] || !In(k, r.1[0])
  {
    var n := RunLength(s, k);
    (s[..n], s[n..])
  }

  /** `Split` recovers any run of `k` that ends where `k` ends. */
  lemma SplitOf(u: string, v: string, k: Class)
    requires All(u, k)
    requires v == [] || !In(k, v[0])
    ensures Split(u + v, k) == (u, v)
  {
    RunOf(u, v, k);
    assert (u + v)[..|u|] == u && (u + v)[|u|..] == v;
  }

  /** The colon that separates the descriptor's keys from their values is in none of
      the classes, so no run of any class can swallow it. */
  lemma ColonOutsideClasses(s: string, k: Class)
    requires All(s, k)
    ensures ':' !in s
  {
  }
}
