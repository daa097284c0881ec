/**
  Matching of a child name against a glob pattern, as used when listing state
  ids: `*` matches any run of characters, `?` any one character, and every
  other character only itself.
*/
module Glob {

  predicate Literal(p: string)
  {
    forall i :: 0 <= i < |p| ==> p[i] != '*' && p[i] != '?'
  }

  predicate Matches(p: string, name: string)
    decreases |p| + |name|
  {
    if p == [] then name == []
    else if p[0] == '*' then Matches(p[1..], name) || (name != [] && Matches(p, name[1..]))
    else name != [] && (p[0] == '?' || p[0] == name[0]) && Matches(p[1..], name[1..])
  }

  /** A single star matches every name. */
  lemma {:induction false} StarMatchesAll(name: string)
    ensures Matches("*", name)
    decreases |name|
  {
    if name != [] {
      StarMatchesAll(name[1..]);
    }
  }

  /** A pattern without wildcards matches exactly the name equal to it. */
  lemma {:induction false} LiteralMatchesItself(p: string, name: string)
    requires Literal(p)
    ensures Matches(p, name) <==> name == p
    decreases |p|
  {
    if p != [] {
      LiteralMatchesItself(p[1..], if name == [] then [] else name[1..]);
      if name != [] {
        assert name == [name[0]] + name[1..];
        assert p == [p[0]] + p[1..];
      }
    }
  }

  /** A wildcard-free prefix followed by one star matches exactly the names that start with it. */
  lemma {:induction false} PrefixStar(p: string, name: string)
    requires Literal(p)
    ensures Matches(p + "*", name) <==> p <= name
    decreases |p|
  {
    if p == [] {
      assert p + "*" == "*";
      StarMatchesAll(name);
    } else {
      assert (p + "*")[0] == p[0];
      assert (p + "*")[1..] == p[1..] + "*";
      PrefixStar(p[1..], if name == [] then [] else name[1..]);
      if name != [] {
        assert p <= name <==> p[0] == name[0] && p[1..] <= name[1..];
      }
    }
  }
}
