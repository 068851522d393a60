/** The `rule!` macro: token trees of `&&`, `||`, calls and groups compiled by
    `composite_requirement!` and `access_and_or!` to nested requirements. */
module AccessRules {
  import opened Ordered

  datatype Token = Ident(name: string) | Group(tokens: seq<Token>) | AndAnd | OrOr | Other(text: string)

  datatype Requirement = Basic(rule: nat) | AnyOf(rules: seq<Requirement>) | AllOf(rules: seq<Requirement>)

  datatype AccessRule = AllowAll | DenyAll | Protected(requirement: Requirement)

  /** What a call such as `require(badge)` in the rule evaluates to. */
  type Leaf = (string, seq<Token>) -> Requirement

  /** `CompositeRequirement::or`: a disjunction on the left is extended. */
  function Or(a: Requirement, b: Requirement): Requirement {
    if a.AnyOf? then AnyOf(a.rules + [b]) else AnyOf([a, b])
  }

  function And(a: Requirement, b: Requirement): Requirement {
    if a.AllOf? then AllOf(a.rules + [b]) else AllOf([a, b])
  }

  /** `verify_auth_rule`, for the basic requirements that hold. */
  predicate Satisfied(r: Requirement, holds: nat -> bool) {
    match r
    case Basic(n) => holds(n)
    case AnyOf(rs) => exists i :: 0 <= i < |rs| && Satisfied(rs[i], holds)
    case AllOf(rs) => forall i :: 0 <= i < |rs| ==> Satisfied(rs[i], holds)
  }

  lemma {:induction false} SatisfiedOr(a: Requirement, b: Requirement, holds: nat -> bool)
    ensures Satisfied(Or(a, b), holds) <==> Satisfied(a, holds) || Satisfied(b, holds)
  {
    var rs := Or(a, b).rules;
    assert rs[|rs| - 1] == b;
    if a.AnyOf? {
      forall i | 0 <= i < |a.rules| ensures rs[i] == a.rules[i] {}
      assert forall i :: 0 <= i < |rs| ==> rs[i] == if i < |a.rules| then a.rules[i] else b;
    } else {
      assert rs[0] == a;
    }
  }

  lemma {:induction false} SatisfiedAnd(a: Requirement, b: Requirement, holds: nat -> bool)
    ensures Satisfied(And(a, b), holds) <==> Satisfied(a, holds) && Satisfied(b, holds)
  {
    var rs := And(a, b).rules;
    assert rs[|rs| - 1] == b;
    if a.AllOf? {
      assert forall i :: 0 <= i < |a.rules| ==> rs[i] == a.rules[i];
      assert forall i :: 0 <= i < |rs| ==> rs[i] == if i < |a.rules| then a.rules[i] else b;
    } else {
      assert rs[0] == a;
    }
  }

  // ---------------------------------------------------------------------------------------
  // The macros. `None` is a compile error.
  // ---------------------------------------------------------------------------------------

  /** An identifier and a token tree are an expression only as a call. */
  function Call(name: string, args: Token, leaf: Leaf): Option<Requirement> {
    if args.Group? then Some(leaf(name, args.tokens)) else None
  }

  /** `composite_requirement!` of a single token tree. */
  function Single(t: Token, leaf: Leaf): Option<Requirement> {
    if t.Group? && t.tokens != [] then Composite(t.tokens, leaf) else None
  }

  /** `composite_requirement!`. */
  function Composite(ts: seq<Token>, leaf: Leaf): Option<Requirement> {
    if |ts| == 2 && ts[0].Ident? then Call(ts[0].name, ts[1], leaf)
    else if |ts| == 1 then Single(ts[0], leaf)
    else if |ts| >= 3 && ts[0].Ident? then
      match Call(ts[0].name, ts[1], leaf)
      case None => None
      case Some(e) => AndOr(ts[2..], e, leaf)
    else if |ts| >= 2 then
      match Single(ts[0], leaf)
      case None => None
      case Some(e) => AndOr(ts[1..], e, leaf)
    else None
  }

  /** The closure that `access_and_or!` builds, applied to `e`. The arms are tried in source order. */
  function AndOr(ts: seq<Token>, e: Requirement, leaf: Leaf): Option<Requirement> {
    if |ts| < 2 || !(ts[0].AndAnd? || ts[0].OrOr?) then None
    else if |ts| == 2 then
      Joined(ts[0], e, Single(ts[1], leaf))
    else if |ts| == 3 && ts[1].Ident? then
      Joined(ts[0], e, Call(ts[1].name, ts[2], leaf))
    else if |ts| >= 4 && (ts[2].AndAnd? || ts[2].OrOr?) then
      match Single(ts[1], leaf)
      case None => None
      case Some(next) =>
        if ts[0].OrOr? && ts[2].AndAnd? then Joined(OrOr, e, AndOr(ts[2..], next, leaf))
        else AndOr(ts[2..], Join(ts[0], e, next), leaf)
    else if |ts| >= 5 && ts[1].Ident? && (ts[3].AndAnd? || ts[3].OrOr?) then
      match Call(ts[1].name, ts[2], leaf)
      case None => None
      case Some(next) =>
        if ts[0].OrOr? && ts[3].AndAnd? then Joined(OrOr, e, AndOr(ts[3..], next, leaf))
        else AndOr(ts[3..], Join(ts[0], e, next), leaf)
    else None
  }

  function Join(op: Token, a: Requirement, b: Requirement): Requirement {
    if op.OrOr? then Or(a, b) else And(a, b)
  }

  function Joined(op: Token, a: Requirement, b: Option<Requirement>): Option<Requirement> {
    match b
    case None => None
    case Some(r) => Some(Join(op, a, r))
  }

  /** `rule!`. */
  function Rule(ts: seq<Token>, leaf: Leaf): Option<AccessRule> {
    if ts == [Ident("allow_all")] then Some(AllowAll)
    else if ts == [Ident("deny_all")] then Some(DenyAll)
    else
      match Composite(ts, leaf)
      case None => None
      case Some(r) => Some(Protected(r))
  }

  // ---------------------------------------------------------------------------------------
  // Expressions and their usual reading
  // ---------------------------------------------------------------------------------------

  datatype Operand = Leafy(name: string, args: seq<Token>) | Paren(chain: Chain)

  /** `operand`, `operand && chain` or `operand || chain`. */
  datatype Chain = Last(operand: Operand) | More(operand: Operand, conjunct: bool, rest: Chain)

  function OperandTokens(o: Operand): (ts: seq<Token>)
    ensures 1 <= |ts| <= 2
  {
    match o
    case Leafy(name, args) => [Ident(name), Group(args)]
    case Paren(c) => [Group(Tokens(c))]
  }

  function OpToken(conjunct: bool): Token {
    if conjunct then AndAnd else OrOr
  }

  function Tokens(c: Chain): (ts: seq<Token>)
    ensures ts != []
  {
    match c
    case Last(o) => OperandTokens(o)
    case More(o, conjunct, rest) => OperandTokens(o) + [OpToken(conjunct)] + Tokens(rest)
  }

  predicate OperandTrue(o: Operand, leaf: Leaf, holds: nat -> bool) {
    match o
    case Leafy(name, args) => Satisfied(leaf(name, args), holds)
    case Paren(c) => ChainTrue(c, leaf, holds)
  }

  /** The conjunction the chain starts with, up to the first `||`. */
  predicate LeadingTrue(c: Chain, leaf: Leaf, holds: nat -> bool)
    decreases c, 0
  {
    OperandTrue(c.operand, leaf, holds) && (c.More? && c.conjunct ==> LeadingTrue(c.rest, leaf, holds))
  }

  /** What follows the first `||`, if there is one. */
  predicate LaterTrue(c: Chain, leaf: Leaf, holds: nat -> bool)
    decreases c, 0
  {
    c.More? && (if c.conjunct then LaterTrue(c.rest, leaf, holds) else ChainTrue(c.rest, leaf, holds))
  }

  /** `&&` binds tighter than `||`. */
  predicate ChainTrue(c: Chain, leaf: Leaf, holds: nat -> bool)
    decreases c, 1
  {
    LeadingTrue(c, leaf, holds) || LaterTrue(c, leaf, holds)
  }

  // ---------------------------------------------------------------------------------------
  // The macros keep the meaning
  // ---------------------------------------------------------------------------------------

  /** Compiles, and to a requirement with this truth value. */
  predicate Means(r: Option<Requirement>, truth: bool, holds: nat -> bool) {
    r.Some? && (Satisfied(r.value, holds) <==> truth)
  }

  lemma {:induction false} JoinMeans(op: Token, a: Requirement, b: Requirement, holds: nat -> bool)
    ensures Satisfied(Join(op, a, b), holds) <==>
            if op.OrOr? then Satisfied(a, holds) || Satisfied(b, holds) else Satisfied(a, holds) && Satisfied(b, holds)
  {
    if op.OrOr? {
      SatisfiedOr(a, b, holds);
    } else {
      SatisfiedAnd(a, b, holds);
    }
  }

  /** An operand compiles on its own to its meaning. */
  lemma {:induction false} OperandMeans(o: Operand, leaf: Leaf, holds: nat -> bool)
    ensures match o
            case Leafy(name, args) => Means(Call(name, Group(args), leaf), OperandTrue(o, leaf, holds), holds)
            case Paren(c) => Means(Single(Group(Tokens(c)), leaf), OperandTrue(o, leaf, holds), holds)
    decreases o
  {
    if o.Paren? {
      CompositeMeans(o.chain, leaf, holds);
    }
  }

  function OperandOf(o: Operand, leaf: Leaf): Option<Requirement> {
    match o
    case Leafy(name, args) => Call(name, Group(args), leaf)
    case Paren(c) => Single(Group(Tokens(c)), leaf)
  }

  /** How the macro steps over one operand of a chain. */
  lemma {:induction false} AndOrUnfolds(conjunct: bool, c: Chain, e: Requirement, leaf: Leaf)
    ensures AndOr([OpToken(conjunct)] + Tokens(c), e, leaf) ==
            match OperandOf(c.operand, leaf) {
              case None => None
              case Some(next) =>
                if c.Last? then Some(Join(OpToken(conjunct), e, next))
                else if !conjunct && c.conjunct then
                  Joined(OrOr, e, AndOr([AndAnd] + Tokens(c.rest), next, leaf))
                else AndOr([OpToken(c.conjunct)] + Tokens(c.rest), Join(OpToken(conjunct), e, next), leaf)
            }
  {
    var op := OpToken(conjunct);
    var ts := [op] + Tokens(c);
    var n := |OperandTokens(c.operand)|;
    if c.More? {
      var tail := [OpToken(c.conjunct)] + Tokens(c.rest);
      assert ts == [op] + OperandTokens(c.operand) + tail;
      assert ts[1 + n..] == tail;
      assert ts[1 + n] == OpToken(c.conjunct);
    }
    assert ts[1] == OperandTokens(c.operand)[0];
    if n == 2 {
      assert ts[2] == OperandTokens(c.operand)[1];
    }
  }

  lemma {:induction false} AndOrMeans(conjunct: bool, c: Chain, e: Requirement, leaf: Leaf, holds: nat -> bool)
    ensures Means(AndOr([OpToken(conjunct)] + Tokens(c), e, leaf),
                  if conjunct
                  then (Satisfied(e, holds) && LeadingTrue(c, leaf, holds)) || LaterTrue(c, leaf, holds)
                  else Satisfied(e, holds) || ChainTrue(c, leaf, holds),
                  holds)
    decreases c
  {
    AndOrUnfolds(conjunct, c, e, leaf);
    OperandMeans(c.operand, leaf, holds);
    var next := OperandOf(c.operand, leaf).value;
    JoinMeans(OpToken(conjunct), e, next, holds);
    if c.Last? {
    } else {
      if !conjunct && c.conjunct {
        AndOrMeans(true, c.rest, next, leaf, holds);
        JoinMeans(OrOr, e, AndOr([AndAnd] + Tokens(c.rest), next, leaf).value, holds);
      } else {
        AndOrMeans(c.conjunct, c.rest, Join(OpToken(conjunct), e, next), leaf, holds);
      }
    }
  }

  lemma {:induction false} CompositeUnfolds(c: Chain, leaf: Leaf)
    ensures Composite(Tokens(c), leaf) ==
            match OperandOf(c.operand, leaf) {
              case None => None
              case Some(e) =>
                if c.Last? then Some(e) else AndOr([OpToken(c.conjunct)] + Tokens(c.rest), e, leaf)
            }
  {
    var ts := Tokens(c);
    var n := |OperandTokens(c.operand)|;
    if c.More? {
      var tail := [OpToken(c.conjunct)] + Tokens(c.rest);
      assert ts == OperandTokens(c.operand) + tail;
      assert ts[n..] == tail;
    }
    assert ts[0] == OperandTokens(c.operand)[0];
    if n == 2 {
      assert ts[1] == OperandTokens(c.operand)[1];
    }
  }

  /** Every chain with arbitrarily nested groups compiles, and the requirement is satisfied exactly
      when the expression is true under the usual reading. */
  lemma {:induction false} CompositeMeans(c: Chain, leaf: Leaf, holds: nat -> bool)
    ensures Means(Composite(Tokens(c), leaf), ChainTrue(c, leaf, holds), holds)
    decreases c
  {
    CompositeUnfolds(c, leaf);
    OperandMeans(c.operand, leaf, holds);
    if c.More? {
      AndOrMeans(c.conjunct, c.rest, OperandOf(c.operand, leaf).value, leaf, holds);
    }
  }

  // ---------------------------------------------------------------------------------------
  // Nothing else compiles
  // ---------------------------------------------------------------------------------------

  ghost predicate IsChain(ts: seq<Token>) {
    exists c :: ts == Tokens(c)
  }

  ghost predicate IsOpChain(ts: seq<Token>) {
    exists conjunct, c :: ts == [OpToken(conjunct)] + Tokens(c)
  }

  /** Only an operand compiles on its own. */
  lemma {:induction false} SingleIsOperand(t: Token, leaf: Leaf)
    requires Single(t, leaf).Some?
    ensures exists c :: [t] == OperandTokens(Paren(c))
    decreases t
  {
    OnlyChainsCompile(t.tokens, leaf);
    var c :| t.tokens == Tokens(c);
    assert [t] == OperandTokens(Paren(c));
  }

  lemma {:induction false} ExtendChain(ts: seq<Token>, o: Operand, rest: seq<Token>)
    requires ts == OperandTokens(o) + rest && (rest == [] || IsOpChain(rest))
    ensures IsChain(ts)
  {
    if rest == [] {
      assert ts == Tokens(Last(o));
    } else {
      var conjunct, c :| rest == [OpToken(conjunct)] + Tokens(c);
      assert ts == Tokens(More(o, conjunct, c));
    }
  }

  lemma {:induction false} OnlyChainsContinue(ts: seq<Token>, e: Requirement, leaf: Leaf)
    requires AndOr(ts, e, leaf).Some?
    ensures IsOpChain(ts)
    decreases ts
  {
    var op, body := ts[0], ts[1..];
    assert op == OpToken(op.AndAnd?) && ts == [op] + body;
    assert IsChain(body) by {
      if |ts| == 3 && ts[1].Ident? {
        ExtendChain(body, Leafy(ts[1].name, ts[2].tokens), []);
      } else if |ts| == 2 || ts[2].AndAnd? || ts[2].OrOr? {
        SingleIsOperand(ts[1], leaf);
        var c :| [ts[1]] == OperandTokens(Paren(c));
        if |ts| > 2 {
          var next := Single(ts[1], leaf).value;
          OnlyChainsContinue(ts[2..], if ts[0].OrOr? && ts[2].AndAnd? then next else Join(ts[0], e, next), leaf);
        }
        assert body == [ts[1]] + ts[2..];
        ExtendChain(body, Paren(c), ts[2..]);
      } else {
        var next := Call(ts[1].name, ts[2], leaf).value;
        OnlyChainsContinue(ts[3..], if ts[0].OrOr? && ts[3].AndAnd? then next else Join(ts[0], e, next), leaf);
        assert body == [ts[1], ts[2]] + ts[3..];
        ExtendChain(body, Leafy(ts[1].name, ts[2].tokens), ts[3..]);
      }
    }
    var c :| body == Tokens(c);
    assert ts == [OpToken(op.AndAnd?)] + Tokens(c);
  }

  /** Whatever compiles is a chain of calls and groups joined by `&&` and `||`. */
  lemma {:induction false} OnlyChainsCompile(ts: seq<Token>, leaf: Leaf)
    requires Composite(ts, leaf).Some?
    ensures IsChain(ts)
    decreases ts
  {
    if |ts| >= 2 && ts[0].Ident? {
      if |ts| > 2 {
        OnlyChainsContinue(ts[2..], Call(ts[0].name, ts[1], leaf).value, leaf);
      }
      assert ts == [ts[0], ts[1]] + ts[2..];
      ExtendChain(ts, Leafy(ts[0].name, ts[1].tokens), ts[2..]);
    } else {
      SingleIsOperand(ts[0], leaf);
      var c :| [ts[0]] == OperandTokens(Paren(c));
      if |ts| > 1 {
        OnlyChainsContinue(ts[1..], Single(ts[0], leaf).value, leaf);
      }
      assert ts == [ts[0]] + ts[1..];
      ExtendChain(ts, Paren(c), ts[1..]);
    }
  }

  /** `rule!` compiles exactly the two keywords and the chains; a chain gives a protected rule. */
  lemma {:induction false} RuleAcceptsExactly(ts: seq<Token>, leaf: Leaf)
    ensures Rule(ts, leaf).Some? <==> ts == [Ident("allow_all")] || ts == [Ident("deny_all")] || IsChain(ts)
    ensures IsChain(ts) ==> Rule(ts, leaf).Some? && Rule(ts, leaf).value.Protected?
  {
    if Composite(ts, leaf).Some? {
      OnlyChainsCompile(ts, leaf);
    }
    if IsChain(ts) {
      var c :| ts == Tokens(c);
      CompositeMeans(c, leaf, n => true);
      assert ts[0] == OperandTokens(c.operand)[0];
      assert |ts| == 1 ==> ts[0].Group?;
    }
  }

  // ---------------------------------------------------------------------------------------
  // Who a rule lets in
  // ---------------------------------------------------------------------------------------

  /** `check_authorization_against_access_rule`, for the basic requirements that hold. */
  predicate Allows(rule: AccessRule, holds: nat -> bool) {
    match rule
    case AllowAll => true
    case DenyAll => false
    case Protected(r) => Satisfied(r, holds)
  }

  /** `rule!(allow_all)` lets everyone in, `rule!(deny_all)` no one, and the rule of a chain exactly
      those for whom the expression is true. */
  lemma {:induction false} RuleMeans(c: Chain, leaf: Leaf, holds: nat -> bool)
    ensures var all := Rule([Ident("allow_all")], leaf); all.Some? && Allows(all.value, holds)
    ensures var none := Rule([Ident("deny_all")], leaf); none.Some? && !Allows(none.value, holds)
    ensures var rule := Rule(Tokens(c), leaf);
            rule.Some? && (Allows(rule.value, holds) <==> ChainTrue(c, leaf, holds))
  {
    assert [Ident("allow_all")][0] != [Ident("deny_all")][0];
    CompositeMeans(c, leaf, holds);
    var ts := Tokens(c);
    assert ts[0] == OperandTokens(c.operand)[0];
    assert |ts| == 1 ==> ts[0].Group?;
  }

  /** `verify_auth_rule`: the first satisfied alternative lets in, the first failed conjunct does not. */
  method VerifyAuthRule(r: Requirement, holds: nat -> bool) returns (authorized: bool)
    ensures authorized <==> Satisfied(r, holds)
    decreases r
  {
    match r {
      case Basic(n) => return holds(n);
      case AnyOf(rules) =>
        for i := 0 to |rules|
          invariant forall j :: 0 <= j < i ==> !Satisfied(rules[j], holds)
        {
          var one := VerifyAuthRule(rules[i], holds);
          if one { return true; }
        }
        return false;
      case AllOf(rules) =>
        for i := 0 to |rules|
          invariant forall j :: 0 <= j < i ==> Satisfied(rules[j], holds)
        {
          var one := VerifyAuthRule(rules[i], holds);
          if !one { return false; }
        }
        return true;
    }
  }
}
