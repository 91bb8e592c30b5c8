/** `functionalize`: the proxy-method name derived from a configuration key,
    `value.toLowerCase().replace(/[^a-z]/g, '')`. */
module Names {

  /** A proxy name: letters `a` to `z` only. */
  predicate IsProxyName(s: string) {
    forall i :: 0 <= i < |s| ==> 'a' <= s[i] <= 'z'
  }

  /** What lower-casing and then removing every character outside `a`-`z`
      leaves of one character. Only four kinds of character survive: `a`-`z`
      itself, `A`-`Z` (lowered), the KELVIN SIGN U+212A (whose lower case is
      `k`) and U+0130 (whose lower case is `i` followed by U+0307, a combining
      dot that is then removed). Every other character lower-cases to something
      outside `a`-`z` and disappears. */
  function Survivor(c: char): seq<char> {
    if 'a' <= c <= 'z' then [c]
    else if 'A' <= c <= 'Z' then [(c as int + 32) as char]
    else if c == '\U{212A}' then ['k']
    else if c == '\U{0130}' then ['i']
    else []
  }

  function Functionalize(value: string): (r: string)
    ensures |r| <= |value|
    ensures IsProxyName(r)
  {
    if value == [] then [] else Survivor(value[0]) + Functionalize(value[1..])
  }

  /** Functionalizing works character by character. */
  lemma {:induction false} FunctionalizeAppend(a: string, b: string)
    ensures Functionalize(a + b) == Functionalize(a) + Functionalize(b)
  {
    if a == [] {
      assert a + b == b;
    } else {
      assert (a + b)[0] == a[0] && (a + b)[1..] == a[1..] + b;
      FunctionalizeAppend(a[1..], b);
      calc {
        Functionalize(a + b);
        Survivor(a[0]) + Functionalize(a[1..] + b);
        Survivor(a[0]) + (Functionalize(a[1..]) + Functionalize(b));
        (Survivor(a[0]) + Functionalize(a[1..])) + Functionalize(b);
      }
    }
  }

  /** A name is left unchanged exactly when it already is a proxy name. */
  lemma {:induction false} FunctionalizeFixes(s: string)
    ensures Functionalize(s) == s <==> IsProxyName(s)
  {
    if s != [] && IsProxyName(s) {
      assert IsProxyName(s[1..]) by {
        forall i | 0 <= i < |s[1..]| ensures 'a' <= s[1..][i] <= 'z' {
          assert s[1..][i] == s[i + 1];
        }
      }
      FunctionalizeFixes(s[1..]);
    }
  }

  /** `functionalize(functionalize(x)) == functionalize(x)`. */
  lemma FunctionalizeIdempotent(value: string)
    ensures Functionalize(Functionalize(value)) == Functionalize(value)
  {
    FunctionalizeFixes(Functionalize(value));
  }

  /** Upper and lower case give the same name wherever the letter stands in
      the key, and only letters count, so distinct keys can share one proxy
      name. */
  lemma FunctionalizeIgnoresCase(a: string, c: char, b: string)
    requires 'A' <= c <= 'Z'
    ensures Functionalize(a + [c] + b) == Functionalize(a + [(c as int + 32) as char] + b)
  {
    var l := (c as int + 32) as char;
    assert [c][1..] == [] && [l][1..] == [];
    assert Functionalize([c]) == Functionalize([l]);
    FunctionalizeAppend(a + [c], b);
    FunctionalizeAppend(a, [c]);
    FunctionalizeAppend(a + [l], b);
    FunctionalizeAppend(a, [l]);
  }

  /** Characters outside the letters are dropped wherever they stand, so
      keys that differ only in them (`option httplog`, `option-httplog`)
      get the same proxy name. */
  lemma SeparatorIgnored(a: string, c: char, b: string)
    requires !('a' <= c <= 'z' || 'A' <= c <= 'Z' || c == '\U{212A}' || c == '\U{0130}')
    ensures Functionalize(a + [c] + b) == Functionalize(a + b)
  {
    FunctionalizeAppend(a + [c], b);
    FunctionalizeAppend(a, [c]);
    FunctionalizeAppend(a, b);
    assert [c][1..] == [];
    assert Functionalize([c]) == [] + [];
    assert Functionalize(a + [c]) == Functionalize(a);
  }
}
