/** The text substitution pipeline run over a serialised document: `apply` maps the paths of the
    machine the document was written on to this one, `reverse` maps them back before saving. */
module ReplaceRules {
  import opened Text

  /** One configured pair: `before` is rewritten to `after` on load. */
  datatype Rule = Rule(before: string, after: string)

  /** The rules in configured order, each replacing every `before` with `after`. */
  function ApplyAll(rules: seq<Rule>, s: string): string
  {
    if rules == [] then s
    else
      var n := |rules| - 1;
      ReplaceAll(ApplyAll(rules[..n], s), rules[n].before, rules[n].after)
  }

  /** The rules in reversed order, each replacing every `after` with `before`. */
  function ReverseAll(rules: seq<Rule>, s: string): string
  {
    if rules == [] then s
    else
      var n := |rules| - 1;
      ReverseAll(rules[..n], ReplaceAll(s, rules[n].after, rules[n].before))
  }

  /** The loop of `apply_replace_rules`, rebinding the text once per rule. */
  method ApplyText(rules: seq<Rule>, s: string) returns (r: string)
    ensures r == ApplyAll(rules, s)
  {
    r := s;
    for i := 0 to |rules|
      invariant r == ApplyAll(rules[..i], s)
    {
      assert rules[..i + 1][..i] == rules[..i];
      r := ReplaceAll(r, rules[i].before, rules[i].after);
    }
    assert rules[..|rules|] == rules;
  }

  /** The loop of `reverse_replace_rules`, walking the rules from the last to the first. */
  method ReverseText(rules: seq<Rule>, s: string) returns (r: string)
    ensures r == ReverseAll(rules, s)
  {
    r := s;
    var i := |rules|;
    assert rules[..i] == rules;
    while i > 0
      invariant 0 <= i <= |rules|
      invariant ReverseAll(rules[..i], r) == ReverseAll(rules, s)
    {
      assert rules[..i][..i - 1] == rules[..i - 1];
      i := i - 1;
      r := ReplaceAll(r, rules[i].after, rules[i].before);
    }
  }

  /** Forward order: the first rule rewrites the text before any later rule sees it. */
  lemma {:induction false} ApplyFirstRuleFirst(r: Rule, rest: seq<Rule>, s: string)
    ensures ApplyAll([r] + rest, s) == ApplyAll(rest, ReplaceAll(s, r.before, r.after))
  {
    if rest != [] {
      var n := |rest| - 1;
      assert ([r] + rest)[..n + 1] == [r] + rest[..n];
      ApplyFirstRuleFirst(r, rest[..n], s);
    }
  }

  /** A rule can be undone on a text when both its strings are non-empty and every `after` in
      the result is one the rule put there: either the first character of `after` does not occur
      in the text, or `after` does not occur in it and no two copies of `after` can overlap. */
  predicate RuleUndoable(r: Rule, t: string)
  {
    r.before != "" && r.after != "" &&
    (r.after[0] !in t || (Unbordered(r.after) && !Contains(t, r.after)))
  }

  /** The rule shape of the `--replace` help, `"/abc" "/def"`, is undoable on every text that
      does not already hold `/def`, however many `/` it holds. */
  lemma PathRuleUndoable(t: string)
    requires !Contains(t, "/def")
    ensures RuleUndoable(Rule("/abc", "/def"), t)
  {
    var b := "/def";
    forall k | 0 < k < |b| ensures b[..k] != b[|b| - k..] {
      assert b[..k][0] == '/' != b[|b| - k..][0];
    }
  }

  /** Every rule is undoable on the text it meets during `apply`. */
  predicate Reversible(rules: seq<Rule>, s: string)
  {
    rules == [] ||
    var n := |rules| - 1;
    Reversible(rules[..n], s) && RuleUndoable(rules[n], ApplyAll(rules[..n], s))
  }

  /** `reverse` undoes `apply` on every text on which the rules are reversible, chained rules included. */
  lemma {:induction false} RoundTrip(rules: seq<Rule>, s: string)
    requires Reversible(rules, s)
    ensures ReverseAll(rules, ApplyAll(rules, s)) == s
  {
    if rules != [] {
      var n := |rules| - 1;
      var t := ApplyAll(rules[..n], s);
      if rules[n].after[0] !in t {
        ReplaceRoundTrip(t, rules[n].before, rules[n].after);
      } else {
        ReplaceRoundTripUnbordered(t, rules[n].before, rules[n].after);
      }
      RoundTrip(rules[..n], s);
    }
  }

  /** The chained pair `('a','b'), ('b','c')` takes `a` to `c` and back inside any serialised
      document where the value is the only `a`, `b` or `c`, as in `{"key": "a"}`. */
  lemma ChainedRules(pre: string, post: string)
    requires 'a' !in pre + post && 'b' !in pre + post && 'c' !in pre + post
    ensures ApplyAll([Rule("a", "b"), Rule("b", "c")], pre + "a" + post) == pre + "c" + post
    ensures ReverseAll([Rule("a", "b"), Rule("b", "c")], pre + "c" + post) == pre + "a" + post
  {
    var rules := [Rule("a", "b"), Rule("b", "c")];
    assert rules[..1] == [Rule("a", "b")] && rules[..1][..0] == [];
    assert forall ch :: ch in pre ==> ch in pre + post;
    assert forall ch :: ch in post ==> ch in pre + post;
    SwapMid(pre, post, 'a', 'b');
    SwapMid(pre, post, 'b', 'c');
    SwapMid(pre, post, 'c', 'b');
    SwapMid(pre, post, 'b', 'a');
    assert ApplyAll(rules[..1], pre + "a" + post) == pre + "b" + post;
    assert ReverseAll(rules[..1], pre + "b" + post) == pre + "a" + post;
  }

  /** Replacing a character that occurs once rewrites just that place. */
  lemma SwapMid(pre: string, post: string, x: char, y: char)
    requires x !in pre && x !in post
    ensures ReplaceAll(pre + [x] + post, [x], [y]) == pre + [y] + post
  {
    var s, t := pre + [x] + post, pre + [y] + post;
    forall i | 0 <= i < |s| ensures t[i] == if s[i] == x then y else s[i] {
      if i < |pre| {
        assert s[i] == pre[i] == t[i];
      } else if i > |pre| {
        assert s[i] == post[i - |pre| - 1] == t[i];
      }
    }
    SwapChar(s, x, y, t);
  }

  /** Without that condition the round trip can fail: `b -> aa` takes `ab` to `aaa`, which reverses to `ba`. */
  lemma RoundTripCanFail()
    ensures ApplyAll([Rule("b", "aa")], "ab") == "aaa"
    ensures ReverseAll([Rule("b", "aa")], "aaa") == "ba"
  {
    var rules := [Rule("b", "aa")];
    assert rules[..0] == [];
    assert ReplaceAll("ab", "b", "aa") == "aaa";
    assert ReplaceAll("aaa", "aa", "b") == "ba";
  }
}
