/** Build constraints (`eval_constraint` in scripts/ledger-init.py), over the token list.
    The evaluator moves one shared position; running past the last token is an
    `IndexError`, here `Rejected`. */
module BuildConstraint {
  import opened Results

  type Token = string

  const UNIX: set<string> := {"darwin", "linux", "freebsd", "netbsd", "openbsd", "dragonfly",
                              "aix", "solaris", "illumos", "ios", "android"}

  const OPERATORS: set<Token> := {"!", "(", ")", "&&", "||"}

  datatype Target = Target(goos: string, goarch: string)

  predicate TagHolds(tag: Token, target: Target) {
    || tag == target.goos
    || tag == target.goarch
    || (if tag == "unix" then target.goos in UNIX else "go1." <= tag)
  }

  // --- the evaluator ----------------------------------------------------------------------------

  datatype Step = Step(value: bool, pos: nat)

  function Remaining(tokens: seq<Token>, pos: nat): nat {
    if pos <= |tokens| then |tokens| - pos else 0
  }

  predicate Next(tokens: seq<Token>, pos: nat, token: Token) {
    pos < |tokens| && tokens[pos] == token
  }

  function EvalOr(tokens: seq<Token>, target: Target, pos: nat): (r: Verdict<Step>)
    ensures r.Accepted? ==> r.value.pos > pos
    decreases Remaining(tokens, pos), 4
  {
    var first :- EvalAnd(tokens, target, pos);
    OrRest(tokens, target, first)
  }

  /** The rest of a disjunction whose beginning has been evaluated. */
  function OrRest(tokens: seq<Token>, target: Target, so: Step): (r: Verdict<Step>)
    ensures r.Accepted? ==> r.value.pos >= so.pos
    decreases Remaining(tokens, so.pos), 3
  {
    if Next(tokens, so.pos, "||") then
      var term :- EvalAnd(tokens, target, so.pos + 1);
      OrRest(tokens, target, Step(term.value || so.value, term.pos))
    else Accepted(so)
  }

  function EvalAnd(tokens: seq<Token>, target: Target, pos: nat): (r: Verdict<Step>)
    ensures r.Accepted? ==> r.value.pos > pos
    decreases Remaining(tokens, pos), 2
  {
    var first :- EvalNot(tokens, target, pos);
    AndRest(tokens, target, first)
  }

  function AndRest(tokens: seq<Token>, target: Target, so: Step): (r: Verdict<Step>)
    ensures r.Accepted? ==> r.value.pos >= so.pos
    decreases Remaining(tokens, so.pos), 1
  {
    if Next(tokens, so.pos, "&&") then
      var factor :- EvalNot(tokens, target, so.pos + 1);
      AndRest(tokens, target, Step(factor.value && so.value, factor.pos))
    else Accepted(so)
  }

  function EvalNot(tokens: seq<Token>, target: Target, pos: nat): (r: Verdict<Step>)
    ensures r.Accepted? ==> r.value.pos > pos
    decreases Remaining(tokens, pos), 0
  {
    if pos >= |tokens| then Rejected
    else if tokens[pos] == "!" then
      var operand :- EvalNot(tokens, target, pos + 1);
      Accepted(Step(!operand.value, operand.pos))
    else if tokens[pos] == "(" then
      var inner :- EvalOr(tokens, target, pos + 1);
      Accepted(Step(inner.value, inner.pos + 1))
    else Accepted(Step(TagHolds(tokens[pos], target), pos + 1))
  }

  /** The closures over one `pos`. */
  class Evaluator {
    const tokens: seq<Token>
    const target: Target
    var pos: nat

    constructor (tokens: seq<Token>, target: Target)
      ensures this.tokens == tokens && this.target == target && pos == 0
    {
      this.tokens := tokens;
      this.target := target;
      pos := 0;
    }

    method ParseOr() returns (r: Verdict<bool>)
      modifies this`pos
      ensures var step := EvalOr(tokens, target, old(pos));
              if step.Rejected? then r.Rejected? else r == Accepted(step.value.value) && pos == step.value.pos
      decreases Remaining(tokens, pos), 3
    {
      hide EvalNot;
      var v :- ParseAnd();
      while pos < |tokens| && tokens[pos] == "||"
        invariant pos > old(pos)
        invariant EvalOr(tokens, target, old(pos)) == OrRest(tokens, target, Step(v, pos))
        decreases Remaining(tokens, pos)
      {
        pos := pos + 1;
        var term :- ParseAnd();
        v := term || v;
      }
      return Accepted(v);
    }

    method ParseAnd() returns (r: Verdict<bool>)
      modifies this`pos
      ensures var step := EvalAnd(tokens, target, old(pos));
              if step.Rejected? then r.Rejected? else r == Accepted(step.value.value) && pos == step.value.pos
      ensures r.Accepted? ==> pos > old(pos)
      decreases Remaining(tokens, pos), 2
    {
      hide EvalOr;
      var v :- ParseNot();
      while pos < |tokens| && tokens[pos] == "&&"
        invariant pos > old(pos)
        invariant EvalAnd(tokens, target, old(pos)) == AndRest(tokens, target, Step(v, pos))
        decreases Remaining(tokens, pos)
      {
        pos := pos + 1;
        var factor :- ParseNot();
        v := factor && v;
      }
      return Accepted(v);
    }

    method ParseNot() returns (r: Verdict<bool>)
      modifies this`pos
      ensures var step := EvalNot(tokens, target, old(pos));
              if step.Rejected? then r.Rejected? else r == Accepted(step.value.value) && pos == step.value.pos
      ensures r.Accepted? ==> pos > old(pos)
      decreases Remaining(tokens, pos), 1
    {
      hide OrRest, AndRest;
      if pos >= |tokens| {
        return Rejected;
      }
      if tokens[pos] == "!" {
        pos := pos + 1;
        var operand :- ParseNot();
        return Accepted(!operand);
      }
      if tokens[pos] == "(" {
        pos := pos + 1;
        var v :- ParseOr();
        pos := pos + 1;
        return Accepted(v);
      }
      var t := tokens[pos];
      pos := pos + 1;
      return Accepted(TagHolds(t, target));
    }
  }

  /** Whatever is left after the expression is not looked at. */
  method EvalConstraint(tokens: seq<Token>, target: Target) returns (r: Verdict<bool>)
    ensures var step := EvalOr(tokens, target, 0);
            r == if step.Rejected? then Rejected else Accepted(step.value.value)
  {
    var evaluator := new Evaluator(tokens, target);
    r := evaluator.ParseOr();
  }

  // --- expressions and their spellings ---------------------------------------------------------------

  /** An expression as written: `Group` is a pair of parentheses. */
  datatype Expr =
    | Tag(name: Token)
    | Not(operand: Expr)
    | And(left: Expr, right: Expr)
    | Or(left: Expr, right: Expr)
    | Group(inner: Expr)

  predicate Truth(e: Expr, target: Target) {
    match e
    case Tag(name) => TagHolds(name, target)
    case Not(x) => !Truth(x, target)
    case And(l, r) => Truth(l, target) && Truth(r, target)
    case Or(l, r) => Truth(l, target) || Truth(r, target)
    case Group(x) => Truth(x, target)
  }

  function Print(e: Expr): (tokens: seq<Token>)
    ensures |tokens| > 0
  {
    match e
    case Tag(name) => [name]
    case Not(x) => ["!"] + Print(x)
    case And(l, r) => Print(l) + ["&&"] + Print(r)
    case Or(l, r) => Print(l) + ["||"] + Print(r)
    case Group(x) => ["("] + Print(x) + [")"]
  }

  datatype Level = Disjunction | Conjunction | Unary

  /** The parentheses that precedence asks for are there; more may be. */
  predicate Fits(e: Expr, level: Level) {
    match e
    case Tag(name) => name !in OPERATORS
    case Not(x) => Fits(x, Unary)
    case And(l, r) => level != Unary && Fits(l, Conjunction) && Fits(r, Conjunction)
    case Or(l, r) => level == Disjunction && Fits(l, Disjunction) && Fits(r, Disjunction)
    case Group(x) => Fits(x, Disjunction)
  }

  predicate At(tokens: seq<Token>, pos: nat, part: seq<Token>) {
    pos + |part| <= |tokens| && tokens[pos..pos + |part|] == part
  }

  lemma AtParts(tokens: seq<Token>, pos: nat, a: seq<Token>, b: seq<Token>)
    requires At(tokens, pos, a + b)
    ensures At(tokens, pos, a) && At(tokens, pos + |a|, b)
  {
    var whole := tokens[pos..pos + |a| + |b|];
    assert whole[..|a|] == a && whole[|a|..] == b;
    assert tokens[pos..pos + |a|] == whole[..|a|];
    assert tokens[pos + |a|..pos + |a| + |b|] == whole[|a|..];
  }

  lemma AtTriple(tokens: seq<Token>, pos: nat, a: seq<Token>, op: Token, b: seq<Token>)
    requires At(tokens, pos, a + [op] + b)
    ensures At(tokens, pos, a) && Next(tokens, pos + |a|, op) && At(tokens, pos + |a| + 1, b)
  {
    AtParts(tokens, pos, a + [op], b);
    AtParts(tokens, pos, a, [op]);
    assert tokens[pos + |a|..pos + |a| + 1][0] == op;
  }

  /** What a later term does to the value does not depend on how the value was reached. */
  lemma {:induction false} OrShift(tokens: seq<Token>, target: Target, so: Step, known: bool)
    ensures var plain := OrRest(tokens, target, so);
            OrRest(tokens, target, Step(so.value || known, so.pos)) ==
            if plain.Rejected? then Rejected else Accepted(Step(plain.value.value || known, plain.value.pos))
    decreases Remaining(tokens, so.pos)
  {
    hide EvalAnd;
    if Next(tokens, so.pos, "||") {
      var term := EvalAnd(tokens, target, so.pos + 1);
      if term.Accepted? {
        OrShift(tokens, target, Step(term.value.value || so.value, term.value.pos), known);
      }
    }
  }

  lemma {:induction false} AndShift(tokens: seq<Token>, target: Target, so: Step, known: bool)
    ensures var plain := AndRest(tokens, target, so);
            AndRest(tokens, target, Step(so.value && known, so.pos)) ==
            if plain.Rejected? then Rejected else Accepted(Step(plain.value.value && known, plain.value.pos))
    decreases Remaining(tokens, so.pos)
  {
    hide EvalNot;
    if Next(tokens, so.pos, "&&") {
      var factor := EvalNot(tokens, target, so.pos + 1);
      if factor.Accepted? {
        AndShift(tokens, target, Step(factor.value.value && so.value, factor.value.pos), known);
      }
    }
  }

  /** Two disjunctions read one after the other are read as one. */
  lemma OrJoins(tokens: seq<Token>, target: Target, pos: nat, left: Step, right: Step)
    requires EvalOr(tokens, target, pos) == OrRest(tokens, target, left)
    requires Next(tokens, left.pos, "||")
    requires EvalOr(tokens, target, left.pos + 1) == OrRest(tokens, target, right)
    ensures EvalOr(tokens, target, pos) == OrRest(tokens, target, Step(right.value || left.value, right.pos))
  {
    hide EvalAnd;
    var term := EvalAnd(tokens, target, left.pos + 1);
    if term.Accepted? {
      OrShift(tokens, target, term.value, left.value);
    }
    OrShift(tokens, target, right, left.value);
  }

  lemma AndJoins(tokens: seq<Token>, target: Target, pos: nat, left: Step, right: Step)
    requires EvalAnd(tokens, target, pos) == AndRest(tokens, target, left)
    requires Next(tokens, left.pos, "&&")
    requires EvalAnd(tokens, target, left.pos + 1) == AndRest(tokens, target, right)
    ensures EvalAnd(tokens, target, pos) == AndRest(tokens, target, Step(right.value && left.value, right.pos))
  {
    hide EvalNot;
    var factor := EvalNot(tokens, target, left.pos + 1);
    if factor.Accepted? {
      AndShift(tokens, target, factor.value, left.value);
    }
    AndShift(tokens, target, right, left.value);
  }

  lemma {:induction false} UnaryEvaluates(e: Expr, tokens: seq<Token>, target: Target, pos: nat)
    requires Fits(e, Unary) && At(tokens, pos, Print(e))
    ensures EvalNot(tokens, target, pos) == Accepted(Step(Truth(e, target), pos + |Print(e)|))
    decreases e, 0
  {
    hide EvalAnd, AndRest;
    match e {
      case Tag(name) =>
        assert tokens[pos..pos + 1][0] == name;
      case Not(x) =>
        AtParts(tokens, pos, ["!"], Print(x));
        assert tokens[pos..pos + 1][0] == "!";
        UnaryEvaluates(x, tokens, target, pos + 1);
      case Group(x) =>
        AtTriple(tokens, pos, ["("] + Print(x), ")", []) by {
          assert ["("] + Print(x) + [")"] + [] == Print(e);
        }
        AtParts(tokens, pos, ["("], Print(x));
        assert tokens[pos..pos + 1][0] == "(";
        OrEvaluates(x, tokens, target, pos + 1);
    }
  }

  lemma {:induction false} AndEvaluates(e: Expr, tokens: seq<Token>, target: Target, pos: nat)
    requires Fits(e, Conjunction) && At(tokens, pos, Print(e))
    ensures EvalAnd(tokens, target, pos) == AndRest(tokens, target, Step(Truth(e, target), pos + |Print(e)|))
    decreases e, 1
  {
    hide EvalNot, EvalOr, OrRest, At, Next;
    if e.And? {
      hide EvalAnd, AndRest;
      var middle := pos + |Print(e.left)|;
      AtTriple(tokens, pos, Print(e.left), "&&", Print(e.right));
      AndEvaluates(e.left, tokens, target, pos);
      AndEvaluates(e.right, tokens, target, middle + 1);
      AndJoins(tokens, target, pos, Step(Truth(e.left, target), middle), Step(Truth(e.right, target), pos + |Print(e)|));
    } else {
      hide Truth, Print;
      assert Fits(e, Unary);
      UnaryEvaluates(e, tokens, target, pos);
      hide Fits;
    }
  }

  lemma {:induction false} OrEvaluates(e: Expr, tokens: seq<Token>, target: Target, pos: nat)
    requires Fits(e, Disjunction) && At(tokens, pos, Print(e))
    requires !Next(tokens, pos + |Print(e)|, "&&")
    ensures EvalOr(tokens, target, pos) == OrRest(tokens, target, Step(Truth(e, target), pos + |Print(e)|))
    decreases e, 2
  {
    hide EvalNot, EvalAnd, At;
    if e.Or? {
      hide EvalOr, OrRest, AndRest;
      var middle := pos + |Print(e.left)|;
      AtTriple(tokens, pos, Print(e.left), "||", Print(e.right));
      OrEvaluates(e.left, tokens, target, pos);
      OrEvaluates(e.right, tokens, target, middle + 1);
      OrJoins(tokens, target, pos, Step(Truth(e.left, target), middle), Step(Truth(e.right, target), pos + |Print(e)|));
    } else {
      hide Truth, Print;
      assert Fits(e, Conjunction);
      AndEvaluates(e, tokens, target, pos);
      hide Fits;
    }
  }

  // --- the main results -------------------------------------------------------------------------------

  /** The expression without its parentheses. */
  function Strip(e: Expr): Expr {
    match e
    case Tag(_) => e
    case Not(x) => Not(Strip(x))
    case And(l, r) => And(Strip(l), Strip(r))
    case Or(l, r) => Or(Strip(l), Strip(r))
    case Group(x) => Strip(x)
  }

  lemma StripKeepsTruth(e: Expr, target: Target)
    ensures Truth(Strip(e), target) == Truth(e, target)
  {
  }

  /** However the parentheses of `meant` are written, evaluating its tokens
      consumes exactly them and gives its truth value, whatever follows that
      is not a binary operator. */
  lemma PrintedEvaluates(meant: Expr, written: Expr, rest: seq<Token>, target: Target)
    requires Fits(written, Disjunction) && Strip(written) == Strip(meant)
    requires rest == [] || rest[0] !in {"&&", "||"}
    ensures EvalOr(Print(written) + rest, target, 0) == Accepted(Step(Truth(meant, target), |Print(written)|))
  {
    hide EvalOr, Truth, Print;
    var tokens := Print(written) + rest;
    assert tokens[0..|Print(written)|] == Print(written);
    OrEvaluates(written, tokens, target, 0);
    StripKeepsTruth(written, target);
    StripKeepsTruth(meant, target);
  }

  /** The fewest parentheses that keep the meaning. */
  function Minimal(e: Expr, level: Level): Expr {
    match e
    case Tag(_) => e
    case Not(x) => Not(Minimal(x, Unary))
    case And(l, r) =>
      var plain := And(Minimal(l, Conjunction), Minimal(r, Conjunction));
      if level == Unary then Group(plain) else plain
    case Or(l, r) =>
      var plain := Or(Minimal(l, Disjunction), Minimal(r, Disjunction));
      if level == Disjunction then plain else Group(plain)
    case Group(x) => Minimal(x, level)
  }

  predicate NamesOk(e: Expr) {
    match e
    case Tag(name) => name !in OPERATORS
    case Not(x) => NamesOk(x)
    case And(l, r) => NamesOk(l) && NamesOk(r)
    case Or(l, r) => NamesOk(l) && NamesOk(r)
    case Group(x) => NamesOk(x)
  }

  lemma {:induction false} MinimalFits(e: Expr, level: Level)
    requires NamesOk(e)
    ensures Fits(Minimal(e, level), level) && Strip(Minimal(e, level)) == Strip(e)
  {
    match e {
      case Tag(_) =>
      case Not(x) => MinimalFits(x, Unary);
      case And(l, r) => MinimalFits(l, Conjunction); MinimalFits(r, Conjunction);
      case Or(l, r) => MinimalFits(l, Disjunction); MinimalFits(r, Disjunction);
      case Group(x) => MinimalFits(x, level);
    }
  }

  /** Every expression has a spelling that evaluates to it. */
  lemma MinimalEvaluates(e: Expr, target: Target)
    requires NamesOk(e)
    ensures var tokens := Print(Minimal(e, Disjunction));
            EvalOr(tokens, target, 0) == Accepted(Step(Truth(e, target), |tokens|))
  {
    hide EvalOr, Truth, Fits, Strip;
    MinimalFits(e, Disjunction);
    var tokens := Print(Minimal(e, Disjunction));
    PrintedEvaluates(e, Minimal(e, Disjunction), [], target);
    assert tokens + [] == tokens;
  }

  /** The closing parenthesis is skipped unread: without it the value is the
      same, and the position ends one past the last token. */
  lemma MissingCloseAccepted(e: Expr, target: Target)
    requires Fits(e, Disjunction)
    ensures EvalOr(["("] + Print(e), target, 0) == Accepted(Step(Truth(e, target), |Print(e)| + 2))
  {
    var tokens := ["("] + Print(e);
    assert tokens[1..1 + |Print(e)|] == Print(e);
    OrEvaluates(e, tokens, target, 1);
    assert EvalNot(tokens, target, 0) == Accepted(Step(Truth(e, target), |Print(e)| + 2));
    assert EvalAnd(tokens, target, 0) == Accepted(Step(Truth(e, target), |Print(e)| + 2));
  }

  // --- tags spelled out -----------------------------------------------------------------------------------

  predicate UnixLike(goos: string) {
    || goos == "darwin" || goos == "linux" || goos == "freebsd" || goos == "netbsd" || goos == "openbsd"
    || goos == "dragonfly" || goos == "aix" || goos == "solaris" || goos == "illumos" || goos == "ios" || goos == "android"
  }

  /** The target's own system and architecture, `unix` on such systems, and every Go 1 version. */
  predicate Satisfied(tag: Token, target: Target) {
    if tag == target.goos || tag == target.goarch then true
    else if tag == "unix" then UnixLike(target.goos)
    else |tag| >= 4 && tag[0] == 'g' && tag[1] == 'o' && tag[2] == '1' && tag[3] == '.'
  }

  /** What an expression means. */
  function Meaning(e: Expr, target: Target): bool {
    match e
    case Tag(name) => Satisfied(name, target)
    case Not(x) => !Meaning(x, target)
    case And(l, r) => if Meaning(l, target) then Meaning(r, target) else false
    case Or(l, r) => if Meaning(l, target) then true else Meaning(r, target)
    case Group(x) => Meaning(x, target)
  }

  lemma TagIs(tag: Token, target: Target)
    ensures TagHolds(tag, target) <==> Satisfied(tag, target)
  {
    if |tag| >= 4 {
      assert "go1." <= tag <==> tag[..4] == "go1.";
      assert tag[..4] == [tag[0], tag[1], tag[2], tag[3]];
    }
  }

  lemma {:induction false} TruthIsMeaning(e: Expr, target: Target)
    ensures Truth(e, target) == Meaning(e, target)
  {
    hide TagHolds, Satisfied;
    match e {
      case Tag(name) => TagIs(name, target);
      case Not(x) => TruthIsMeaning(x, target);
      case And(l, r) => TruthIsMeaning(l, target); TruthIsMeaning(r, target);
      case Or(l, r) => TruthIsMeaning(l, target); TruthIsMeaning(r, target);
      case Group(x) => TruthIsMeaning(x, target);
    }
  }

  /** No tag is spelled like an operator. */
  predicate Named(e: Expr) {
    match e
    case Tag(name) => name != "!" && name != "(" && name != ")" && name != "&&" && name != "||"
    case Not(x) => Named(x)
    case And(l, r) => Named(l) && Named(r)
    case Or(l, r) => Named(l) && Named(r)
    case Group(x) => Named(x)
  }

  lemma NamedOk(e: Expr)
    ensures Named(e) ==> NamesOk(e)
  {
  }

  /** Every expression over named tags, written with the parentheses it needs, evaluates to
      what it means. */
  lemma EvaluatesMeaning(e: Expr, target: Target)
    requires Named(e)
    ensures var tokens := Print(Minimal(e, Disjunction));
            EvalOr(tokens, target, 0) == Accepted(Step(Meaning(e, target), |tokens|))
  {
    hide EvalOr, Truth, Meaning, Named;
    NamedOk(e);
    MinimalEvaluates(e, target);
    TruthIsMeaning(e, target);
  }
}
