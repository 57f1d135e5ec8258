/**
 * Filtering: `filterPorts` turns the --port value into a regular expression
 * (a digit stands for itself, any other character for `[0-9]+`) and keeps
 * the candidates whose decimal text it matches somewhere. The expression is
 * kept as its sequence of tokens; matching is stated directly on them.
 */
module Filtering {
  import opened Strconv
  import opened GapResolution

  /** One piece of the generated expression: a literal digit, or `[0-9]+`. */
  datatype Token = Lit(digit: char) | AnyDigits

  /** The token a character of the --port value becomes. */
  function TokenOf(c: char): Token {
    if IsDigit(c) then Lit(c) else AnyDigits
  }

  /** The expression generated from the --port value, one token per character. */
  function Pattern(port: string): (t: seq<Token>)
    ensures |t| == |port|
  {
    seq(|port|, i requires 0 <= i < |port| => TokenOf(port[i]))
  }

  /** Whether the tokens match all of `s`: a literal one character, `[0-9]+` one or more digits. */
  predicate FullMatch(t: seq<Token>, s: string)
    decreases |t|
  {
    if t == [] then s == []
    else
      match t[0]
      case Lit(d) => |s| > 0 && s[0] == d && FullMatch(t[1..], s[1..])
      case AnyDigits => exists k :: 1 <= k <= |s| && AllDigits(s[..k]) && FullMatch(t[1..], s[k..])
  }

  /** `regexp.MatchString`: the tokens match some substring of `s`. */
  predicate MatchString(t: seq<Token>, s: string) {
    exists i, j :: 0 <= i <= j <= |s| && FullMatch(t, s[i..j])
  }

  /** The candidates, in order, whose decimal text the tokens match. */
  ghost function Kept(ports: seq<int>, t: seq<Token>): seq<int>
    decreases |ports|
  {
    if ports == [] then []
    else
      var last := ports[|ports| - 1];
      Kept(ports[..|ports| - 1], t) + (if MatchString(t, FormatInt(last)) then [last] else [])
  }

  /** Whether `a` is `b` with some elements left out, the rest in their order. */
  ghost predicate IsSubsequence(a: seq<int>, b: seq<int>)
    decreases |b|
  {
    if a == [] then true
    else if b == [] then false
    else
      || (a[|a| - 1] == b[|b| - 1] && IsSubsequence(a[..|a| - 1], b[..|b| - 1]))
      || IsSubsequence(a, b[..|b| - 1])
  }

  /**
   * `filterPorts`: builds the expression from the --port value, then keeps,
   * in order, the candidates whose decimal text it matches somewhere.
   */
  method FilterPorts(port: string, nextPorts: seq<int>) returns (requestedPorts: seq<int>)
    ensures requestedPorts == Kept(nextPorts, Pattern(port))
  {
    var portRegex: seq<Token> := [];
    for i := 0 to |port|
      invariant portRegex == Pattern(port[..i])
    {
      PatternGrows(port, i);
      if IsDigit(port[i]) {
        portRegex := portRegex + [Lit(port[i])];
      } else {
        portRegex := portRegex + [AnyDigits];
      }
    }
    assert port[..|port|] == port;
    requestedPorts := [];
    for k := 0 to |nextPorts|
      invariant requestedPorts == Kept(nextPorts[..k], portRegex)
    {
      KeptGrows(nextPorts, k, portRegex);
      if MatchString(portRegex, FormatInt(nextPorts[k])) {
        requestedPorts := requestedPorts + [nextPorts[k]];
      }
    }
    assert nextPorts[..|nextPorts|] == nextPorts;
  }

  /** One more character of the --port value adds its token to the expression. */
  lemma PatternGrows(port: string, i: nat)
    requires i < |port|
    ensures Pattern(port[..i + 1]) == Pattern(port[..i]) + [TokenOf(port[i])]
  {
  }

  /** One more candidate is kept after the others exactly when its text matches. */
  lemma KeptGrows(ports: seq<int>, k: nat, t: seq<Token>)
    requires k < |ports|
    ensures Kept(ports[..k + 1], t)
         == Kept(ports[..k], t) + (if MatchString(t, FormatInt(ports[k])) then [ports[k]] else [])
  {
    assert ports[..k + 1][..k] == ports[..k];
  }

  /** A non-empty sequence is all but its last element, then its last element. */
  lemma LastSplit(ports: seq<int>)
    requires ports != []
    ensures ports == ports[..|ports| - 1] + [ports[|ports| - 1]]
  {
  }

  /** A candidate is kept exactly when it is one of the inputs and its text matches. */
  lemma {:induction false} KeptMembers(ports: seq<int>, t: seq<Token>, p: int)
    ensures p in Kept(ports, t) <==> p in ports && MatchString(t, FormatInt(p))
    decreases |ports|
  {
    if ports != [] {
      var init := ports[..|ports| - 1];
      LastSplit(ports);
      KeptMembers(init, t, p);
    }
  }

  /** Filtering only leaves candidates out; it never reorders them. */
  lemma {:induction false} KeptSubsequence(ports: seq<int>, t: seq<Token>)
    ensures IsSubsequence(Kept(ports, t), ports)
    decreases |ports|
  {
    if ports != [] {
      var init := ports[..|ports| - 1];
      KeptSubsequence(init, t);
      var last := ports[|ports| - 1];
      if !MatchString(t, FormatInt(last)) {
        assert Kept(ports, t) == Kept(init, t);
        SubsequenceDropLast(Kept(init, t), ports);
      }
    }
  }

  /** A subsequence of all but the last element is a subsequence of the whole. */
  lemma SubsequenceDropLast(a: seq<int>, b: seq<int>)
    requires b != [] && IsSubsequence(a, b[..|b| - 1])
    ensures IsSubsequence(a, b)
  {
  }

  /** Every element of a subsequence comes from the sequence. */
  lemma {:induction false} SubsequenceMembers(a: seq<int>, b: seq<int>, x: int)
    requires IsSubsequence(a, b) && x in a
    ensures x in b
    decreases |b|
  {
    assert a != [];
    var bInit := b[..|b| - 1];
    if a[|a| - 1] == b[|b| - 1] && IsSubsequence(a[..|a| - 1], bInit) {
      if x != a[|a| - 1] {
        assert a == a[..|a| - 1] + [a[|a| - 1]];
        SubsequenceMembers(a[..|a| - 1], bInit, x);
      }
    } else {
      SubsequenceMembers(a, bInit, x);
    }
  }

  /** A subsequence of a strictly ascending sequence is strictly ascending. */
  lemma {:induction false} SubsequenceAscending(a: seq<int>, b: seq<int>)
    requires IsSubsequence(a, b) && StrictlyAscending(b)
    ensures StrictlyAscending(a)
    decreases |b|
  {
    if a != [] {
      var bInit := b[..|b| - 1];
      if a[|a| - 1] == b[|b| - 1] && IsSubsequence(a[..|a| - 1], bInit) {
        var aInit := a[..|a| - 1];
        SubsequenceAscending(aInit, bInit);
        forall k | 0 <= k < |aInit| ensures aInit[k] < a[|a| - 1] {
          SubsequenceMembers(aInit, bInit, aInit[k]);
        }
      } else {
        SubsequenceAscending(a, bInit);
      }
    }
  }

  /** Filtering keeps the candidates strictly ascending. */
  lemma KeptAscending(ports: seq<int>, t: seq<Token>)
    requires StrictlyAscending(ports)
    ensures StrictlyAscending(Kept(ports, t))
  {
    KeptSubsequence(ports, t);
    SubsequenceAscending(Kept(ports, t), ports);
  }

  /** Filtering twice with the same expression is filtering once. */
  lemma {:induction false} KeptIdempotent(ports: seq<int>, t: seq<Token>)
    ensures Kept(Kept(ports, t), t) == Kept(ports, t)
    decreases |ports|
  {
    if ports != [] {
      var init := ports[..|ports| - 1];
      var last := ports[|ports| - 1];
      var once := Kept(init, t);
      KeptIdempotent(init, t);
      if MatchString(t, FormatInt(last)) {
        var k := once + [last];
        assert k[..|k| - 1] == once;
        assert Kept(k, t) == Kept(once, t) + [last];
      } else {
        assert Kept(ports, t) == once;
      }
    }
  }

  /** The empty expression matches every text, at its start. */
  lemma EmptyMatchesAll(s: string)
    ensures MatchString([], s)
  {
    assert FullMatch([], s[0..0]);
  }

  /** The empty expression matches every text, so nothing is left out. */
  lemma {:induction false} EmptyPatternKeepsAll(ports: seq<int>)
    ensures Kept(ports, []) == ports
    decreases |ports|
  {
    if ports != [] {
      var init := ports[..|ports| - 1];
      var last := ports[|ports| - 1];
      EmptyPatternKeepsAll(init);
      EmptyMatchesAll(FormatInt(last));
      LastSplit(ports);
    }
  }

  /** An empty --port value generates the empty expression, which keeps every candidate. */
  lemma EmptyPortKeepsAll(ports: seq<int>)
    ensures Kept(ports, Pattern("")) == ports
  {
    assert Pattern("") == [];
    EmptyPatternKeepsAll(ports);
  }

  /** The expression of a --port value drops its first token when the value drops its first character. */
  lemma PatternTail(port: string)
    requires port != ""
    ensures Pattern(port)[0] == TokenOf(port[0])
    ensures Pattern(port)[1..] == Pattern(port[1..])
  {
  }

  /** An all-digit --port value matches, in full, only its own text. */
  lemma {:induction false} LiteralFullMatch(port: string, w: string)
    requires AllDigits(port)
    ensures FullMatch(Pattern(port), w) <==> w == port
    decreases |port|
  {
    if port != "" {
      PatternTail(port);
      if w != [] {
        LiteralFullMatch(port[1..], w[1..]);
        if w[0] == port[0] && w[1..] == port[1..] {
          assert w == [w[0]] + w[1..];
          assert port == [port[0]] + port[1..];
        }
      }
    }
  }

  /** Whether `sub` occurs in `s` starting at index i. */
  predicate OccursAt(sub: string, s: string, i: int) {
    0 <= i && i + |sub| <= |s| && s[i..i + |sub|] == sub
  }

  /** An all-digit --port value keeps exactly the ports whose text contains it. */
  lemma LiteralPattern(port: string, s: string)
    requires AllDigits(port)
    ensures MatchString(Pattern(port), s) <==> exists i :: OccursAt(port, s, i)
  {
    if MatchString(Pattern(port), s) {
      var i, j :| 0 <= i <= j <= |s| && FullMatch(Pattern(port), s[i..j]);
      LiteralFullMatch(port, s[i..j]);
      assert OccursAt(port, s, i);
    }
    if exists i :: OccursAt(port, s, i) {
      var i :| OccursAt(port, s, i);
      LiteralFullMatch(port, s[i..i + |port|]);
    }
  }

  /** Whether no character of the --port value is a digit. */
  predicate NoDigits(port: string) {
    forall i :: 0 <= i < |port| ==> !IsDigit(port[i])
  }

  /** n wildcards match, in full, exactly the runs of at least n digits. */
  lemma {:induction false} WildcardFullMatch(port: string, w: string)
    requires port != "" && NoDigits(port)
    ensures FullMatch(Pattern(port), w) <==> AllDigits(w) && |w| >= |port|
    decreases |port|
  {
    PatternTail(port);
    var rest := port[1..];
    if rest == "" {
      if AllDigits(w) && |w| >= 1 {
        assert w[..|w|] == w && w[|w|..] == [];
      }
    } else {
      if FullMatch(Pattern(port), w) {
        var k :| 1 <= k <= |w| && AllDigits(w[..k]) && FullMatch(Pattern(rest), w[k..]);
        WildcardFullMatch(rest, w[k..]);
        assert w == w[..k] + w[k..];
        forall i | 0 <= i < |w| ensures IsDigit(w[i]) {
          if i < k { assert w[i] == w[..k][i]; } else { assert w[i] == w[k..][i - k]; }
        }
      }
      if AllDigits(w) && |w| >= |port| {
        WildcardFullMatch(rest, w[1..]);
        assert AllDigits(w[..1]);
      }
    }
  }

  /** A --port value with no digit keeps every natural port with at least that many digits. */
  lemma WildcardPattern(port: string, p: nat)
    requires port != "" && NoDigits(port)
    ensures MatchString(Pattern(port), FormatInt(p)) <==> |port| <= |FormatInt(p)|
  {
    var s := FormatInt(p);
    if MatchString(Pattern(port), s) {
      var i, j :| 0 <= i <= j <= |s| && FullMatch(Pattern(port), s[i..j]);
      WildcardFullMatch(port, s[i..j]);
    }
    if |port| <= |s| {
      assert s[0..|s|] == s;
      WildcardFullMatch(port, s);
    }
  }

  /** Every digit written in the --port value occurs in the text it matches in full. */
  lemma {:induction false} LiteralOccurs(t: seq<Token>, w: string, m: nat, c: char)
    requires FullMatch(t, w) && m < |t| && t[m] == Lit(c)
    ensures c in w
    decreases |t|
  {
    if m == 0 {
      assert w[0] == c;
    } else {
      match t[0]
      case Lit(d) =>
        LiteralOccurs(t[1..], w[1..], m - 1, c);
      case AnyDigits =>
        var k :| 1 <= k <= |w| && AllDigits(w[..k]) && FullMatch(t[1..], w[k..]);
        LiteralOccurs(t[1..], w[k..], m - 1, c);
    }
  }

  /** A port is kept only if its text contains every digit written in the --port value. */
  lemma LiteralDigitsRequired(port: string, s: string, m: nat)
    requires m < |port| && IsDigit(port[m]) && MatchString(Pattern(port), s)
    ensures port[m] in s
  {
    var i, j :| 0 <= i <= j <= |s| && FullMatch(Pattern(port), s[i..j]);
    LiteralOccurs(Pattern(port), s[i..j], m, port[m]);
  }

  /** The decimal text of the ports in the example below. */
  lemma FormatExamples()
    ensures FormatInt(8001) == "8001" && FormatInt(8050) == "8050" && FormatInt(9050) == "9050"
  {
    assert FormatNat(80) == "80";
    assert FormatNat(800) == "800";
    assert FormatNat(805) == "805";
    assert FormatNat(90) == "90";
    assert FormatNat(905) == "905";
  }

  /** "80xx" matches the whole of "80" followed by any two digits. */
  lemma EightyMatches(a: char, b: char)
    requires IsDigit(a) && IsDigit(b)
    ensures MatchString(Pattern("80xx"), ['8', '0', a, b])
  {
    var t := Pattern("80xx");
    var w := ['8', '0', a, b];
    assert t == [Lit('8'), Lit('0'), AnyDigits, AnyDigits];
    assert FullMatch(t[3..], [b]) by { assert [b][..1] == [b] && [b][1..] == []; }
    assert FullMatch(t[2..], [a, b]) by { assert [a, b][..1] == [a] && [a, b][1..] == [b]; }
    assert FullMatch(t[1..], ['0', a, b]) by {
      assert t[1..][1..] == t[2..] && ['0', a, b][1..] == [a, b];
    }
    assert w[0..4] == w && w[1..] == ['0', a, b];
    assert FullMatch(t, w[0..4]);
  }

  /** "80xx" does not match "9050", which has no '8'. */
  lemma NoEightyIn9050()
    ensures !MatchString(Pattern("80xx"), "9050")
  {
    if MatchString(Pattern("80xx"), "9050") {
      LiteralDigitsRequired("80xx", "9050", 0);
      assert false;
    }
  }

  /** "80xx" keeps 8001 and 8050 and leaves out 9050. */
  lemma FilterExample()
    ensures Kept([8001, 8050, 9050], Pattern("80xx")) == [8001, 8050]
  {
    var ports := [8001, 8050, 9050];
    var t := Pattern("80xx");
    FormatExamples();
    EightyMatches('0', '1');
    EightyMatches('5', '0');
    assert "8001" == ['8', '0', '0', '1'] && "8050" == ['8', '0', '5', '0'];
    NoEightyIn9050();
    assert [8001][..0] == [];
    assert Kept([8001], t) == [8001];
    assert [8001, 8050][..1] == [8001];
    assert Kept([8001, 8050], t) == [8001, 8050];
    assert ports[..2] == [8001, 8050];
  }
}
