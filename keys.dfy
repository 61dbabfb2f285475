/** The key namespacer of RedisCache: `key(id)` lower-cases
    `prefix + ':' + id`. Lower-casing is modelled on ASCII letters. */
module Keys {

  function LowerChar(c: char): char
  {
    if 'A' <= c <= 'Z' then (c as int + 32) as char else c
  }

  /** `String.prototype.toLowerCase`, restricted to ASCII letters. */
  function ToLower(s: string): (r: string)
    ensures |r| == |s|
    ensures forall i :: 0 <= i < |s| ==> r[i] == LowerChar(s[i])
  {
    if s == [] then [] else [LowerChar(s[0])] + ToLower(s[1..])
  }

  lemma ToLowerAppend(a: string, b: string)
    ensures ToLower(a + b) == ToLower(a) + ToLower(b)
  {
    assert forall i :: 0 <= i < |a + b| ==> ToLower(a + b)[i] == (ToLower(a) + ToLower(b))[i];
  }

  lemma ToLowerIdempotent(s: string)
    ensures ToLower(ToLower(s)) == ToLower(s)
  {
    assert forall i :: 0 <= i < |s| ==> ToLower(ToLower(s))[i] == ToLower(s)[i];
  }

  /** `key(id)`: the physical key of `id` under the configured `prefix`;
      prefix and id are lower-cased separately around the `:`. */
  function Key(prefix: string, id: string): (k: string)
    ensures k == ToLower(prefix) + ":" + ToLower(id)
  {
    ToLowerAppend(prefix + ":", id);
    ToLowerAppend(prefix, ":");
    ToLower(prefix + ":" + id)
  }

  /** Physical keys are already lower-case. */
  lemma KeyIsLowerCase(prefix: string, id: string)
    ensures ToLower(Key(prefix, id)) == Key(prefix, id)
  {
    ToLowerIdempotent(prefix + ":" + id);
  }

  /** Two ids share a physical key exactly when they differ only in the case
      of their letters. */
  lemma {:induction false} KeyCaseInsensitive(prefix: string, a: string, b: string)
    ensures Key(prefix, a) == Key(prefix, b) <==> ToLower(a) == ToLower(b)
  {
    var n := |prefix| + 1;
    assert Key(prefix, a)[n..] == ToLower(a);
    assert Key(prefix, b)[n..] == ToLower(b);
  }

  /** The keys a Redis `KEYS` pattern selects, with a trailing `*` read as
      "any suffix" and no other wildcard. */
  predicate MatchesGlob(pattern: string, k: string)
  {
    if |pattern| > 0 && pattern[|pattern| - 1] == '*' then
      pattern[..|pattern| - 1] <= k
    else
      pattern == k
  }

  /** `clear(sub)` looks up `key(sub + '*')`: it selects the keys that start
      with `key(sub)`. */
  lemma {:induction false} ClearPatternSelects(prefix: string, sub: string, k: string)
    ensures MatchesGlob(Key(prefix, sub + "*"), k) <==> Key(prefix, sub) <= k
  {
    var kp := Key(prefix, sub);
    ToLowerAppend(sub, "*");
    assert ToLower("*") == "*";
    assert Key(prefix, sub + "*") == kp + "*";
    assert (kp + "*")[..|kp|] == kp;
  }

  /** A common beginning changes nothing about which string begins which. */
  lemma PrefixCancel(p: string, a: string, b: string)
    ensures p + a <= p + b <==> a <= b
  {
    if a <= b {
      assert (p + b)[..|p + a|] == p + a;
    }
    if p + a <= p + b {
      assert b[..|a|] == (p + b)[|p|..|p + a|];
    }
  }

  /** The physical key of `id` is selected by `clear(sub)` exactly when the
      lower-cased `sub` begins the lower-cased `id`. */
  lemma {:induction false} ClearSelectsId(prefix: string, sub: string, id: string)
    ensures MatchesGlob(Key(prefix, sub + "*"), Key(prefix, id)) <==> ToLower(sub) <= ToLower(id)
  {
    ClearPatternSelects(prefix, sub, Key(prefix, id));
    var p := ToLower(prefix) + ":";
    assert Key(prefix, sub) == p + ToLower(sub);
    assert Key(prefix, id) == p + ToLower(id);
    PrefixCancel(p, ToLower(sub), ToLower(id));
  }

  /** A physical key outside the namespace `prefix:` is never selected by a
      `clear` of that namespace. */
  lemma ClearStaysInNamespace(prefix: string, sub: string, k: string)
    requires !(ToLower(prefix) + ":" <= k)
    ensures !MatchesGlob(Key(prefix, sub + "*"), k)
  {
    ClearPatternSelects(prefix, sub, k);
  }
}
