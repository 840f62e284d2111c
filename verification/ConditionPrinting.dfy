/**
 Conditions as trees, their strict meaning, and their printed form. The main result is that
 evaluating the printed form of a tree gives the tree's meaning.
 */
module ConditionPrinting {
  import opened Wrappers
  import opened Condition
  import opened ConditionValues

  datatype Atom = Path(raw: string) | Number(raw: string) | Quoted(s: string) | Flag(b: bool) | Nil

  datatype Cond =
    | Or(l: Cond, r: Cond)
    | And(l: Cond, r: Cond)
    | Not(c: Cond)
    | Compares(lhs: Atom, op: TokenKind, rhs: Atom)
    | Test(a: Atom)

  // ---- meaning -------------------------------------------------------------

  function AtomMeaning(resolve: Resolver, a: Atom): Result<Val, CondError> {
    match a
    case Path(raw) => resolve(raw)
    case Number(raw) =>
      (match NumberOf(raw)
       case None => Err(InvalidNumber)
       case Some(n) => Ok(Num(n)))
    case Quoted(s) => Ok(Str(s))
    case Flag(b) => Ok(Bool(b))
    case Nil => Ok(Null)
  }

  /** Strict: both sides are always evaluated, the left one first, and the first error wins. */
  ghost function Meaning(resolve: Resolver, c: Cond): Result<bool, CondError> {
    match c
    case Or(l, r) => Both(Meaning(resolve, l), Meaning(resolve, r), (a: bool, b: bool) => a || b)
    case And(l, r) => Both(Meaning(resolve, l), Meaning(resolve, r), (a: bool, b: bool) => a && b)
    case Not(inner) =>
      (match Meaning(resolve, inner)
       case Err(error) => Err(error)
       case Ok(b) => Ok(!b))
    case Compares(lhs, op, rhs) =>
      (match AtomMeaning(resolve, lhs)
       case Err(error) => Err(error)
       case Ok(x) =>
         match AtomMeaning(resolve, rhs)
         case Err(error) => Err(error)
         case Ok(y) => Ok(Relates(x, op, y)))
    case Test(a) =>
      match AtomMeaning(resolve, a)
      case Err(error) => Err(error)
      case Ok(x) => Ok(Holds(x))
  }

  function Both(a: Result<bool, CondError>, b: Result<bool, CondError>, f: (bool, bool) -> bool): Result<bool, CondError> {
    if a.Err? then a else if b.Err? then b else Ok(f(a.value, b.value))
  }

  // ---- printing to tokens --------------------------------------------------

  /** How tightly a tree binds: or 0, and 1, not 2, comparisons and tests 3. */
  function Level(c: Cond): nat {
    match c
    case Or(_, _) => 0
    case And(_, _) => 1
    case Not(_) => 2
    case _ => 3
  }

  const OR := Token(OrToken, "||")
  const AND := Token(AndToken, "&&")
  const NOT := Token(NotToken, "!")
  const OPEN := Token(LParen, "(")
  const CLOSE := Token(RParen, ")")

  function AtomToken(a: Atom): Token {
    match a
    case Path(raw) => Token(DollarPath, raw)
    case Number(raw) => Token(NumberToken, raw)
    case Quoted(s) => Token(StrToken, s)
    case Flag(b) => if b then Token(TrueToken, "true") else Token(FalseToken, "false")
    case Nil => Token(NullToken, "null")
  }

  function OpToken(op: TokenKind): Token {
    match op
    case Gt => Token(op, ">")
    case Gte => Token(op, ">=")
    case Lt => Token(op, "<")
    case Lte => Token(op, "<=")
    case Eq => Token(op, "==")
    case _ => Token(op, "!=")
  }

  /** The tree without parentheses of its own. */
  function Body(c: Cond): seq<Token>
    decreases c, 0
  {
    match c
    case Or(l, r) => Print(l, 0) + [OR] + Print(r, 1)
    case And(l, r) => Print(l, 1) + [AND] + Print(r, 2)
    case Not(inner) => [NOT] + Print(inner, 2)
    case Compares(lhs, op, rhs) => [AtomToken(lhs), OpToken(op), AtomToken(rhs)]
    case Test(a) => [AtomToken(a)]
  }

  /** The tree where only trees of at least this level may stand bare. */
  function Print(c: Cond, level: nat): seq<Token>
    decreases c, 1
  {
    if Level(c) >= level then Body(c) else [OPEN] + Body(c) + [CLOSE]
  }

  /**
   The trees whose printed form can be read back: comparison operators only, and no boolean
   literal on the left of a comparison.
   */
  predicate Printable(c: Cond) {
    match c
    case Or(l, r) => Printable(l) && Printable(r)
    case And(l, r) => Printable(l) && Printable(r)
    case Not(inner) => Printable(inner)
    case Compares(lhs, op, rhs) => IsComparison(op) && !lhs.Flag?
    case Test(a) => true
  }

  // ---- reading tokens back -------------------------------------------------

  /** `toks` stands in `ts` at `pos`, and something follows it. */
  ghost predicate At(ts: seq<Token>, pos: nat, toks: seq<Token>) {
    pos + |toks| < |ts| && forall i :: 0 <= i < |toks| ==> toks[i] == ts[pos + i]
  }

  lemma AtSplit(ts: seq<Token>, pos: nat, a: seq<Token>, b: seq<Token>)
    requires At(ts, pos, a + b)
    ensures b != [] ==> At(ts, pos, a) && ts[pos + |a|] == b[0]
    ensures At(ts, pos + |a|, b)
    ensures a != [] ==> ts[pos] == a[0]
  {
    forall i | 0 <= i < |a| ensures a[i] == ts[pos + i] {
      assert (a + b)[i] == a[i];
    }
    forall i | 0 <= i < |b| ensures b[i] == ts[pos + |a| + i] {
      assert (a + b)[|a| + i] == b[i];
    }
  }

  /** Two printed trees around an operator: where each part stands. */
  lemma AtPair(ts: seq<Token>, pos: nat, left: seq<Token>, op: Token, right: seq<Token>)
    requires left != [] && right != [] && At(ts, pos, left + [op] + right)
    ensures At(ts, pos, left) && ts[pos + |left|] == op && At(ts, pos + |left| + 1, right)
    ensures |left + [op] + right| == |left| + 1 + |right|
  {
    assert left + [op] + right == left + ([op] + right);
    AtSplit(ts, pos, left, [op] + right);
    AtSplit(ts, pos + |left|, [op], right);
  }

  lemma AtParens(ts: seq<Token>, pos: nat, inner: seq<Token>)
    requires inner != [] && At(ts, pos, [OPEN] + inner + [CLOSE])
    ensures ts[pos] == OPEN && At(ts, pos + 1, inner) && ts[pos + 1 + |inner|] == CLOSE
    ensures pos + 2 + |inner| < |ts|
  {
    assert [OPEN] + inner + [CLOSE] == [OPEN] + (inner + [CLOSE]);
    AtSplit(ts, pos, [OPEN], inner + [CLOSE]);
    AtSplit(ts, pos + 1, inner, [CLOSE]);
  }

  /** The meaning, and the position after the printed tree. */
  ghost function Read(m: Result<bool, CondError>, next: nat): Parsed {
    if m.Err? then Err(m.error) else Ok((m.value, next))
  }

  ghost function ReadOr(resolve: Resolver, ts: seq<Token>, m: Result<bool, CondError>, next: nat): Parsed
    requires EndsInEof(ts) && next < |ts|
  {
    if m.Err? then Err(m.error) else OrTail(resolve, ts, next, m.value)
  }

  ghost function ReadAnd(resolve: Resolver, ts: seq<Token>, m: Result<bool, CondError>, next: nat): Parsed
    requires EndsInEof(ts) && next < |ts|
  {
    if m.Err? then Err(m.error) else AndTail(resolve, ts, next, m.value)
  }

  predicate Stops(t: Token) {
    !t.kind.AndToken? && !IsComparison(t.kind)
  }

  lemma {:induction false} PrintedIsNonempty(c: Cond, level: nat)
    ensures Body(c) != [] && Print(c, level) != []
  {
  }

  /** An or-expression reads a bare tree of any level and goes on with its tail. */
  lemma {:induction false} OrReadsBody(resolve: Resolver, ts: seq<Token>, pos: nat, c: Cond)
    requires EndsInEof(ts) && Printable(c) && At(ts, pos, Body(c)) && Stops(ts[pos + |Body(c)|])
    ensures OrExpr(resolve, ts, pos) == ReadOr(resolve, ts, Meaning(resolve, c), pos + |Body(c)|)
    decreases c, 5
  {
    if c.Or? {
      OrReadsPair(resolve, ts, pos, c.l, c.r);
    } else {
      AndReadsBody(resolve, ts, pos, c);
      AndTailStops(resolve, ts, pos + |Body(c)|, Meaning(resolve, c));
    }
  }

  lemma PairsPrint(l: Cond, r: Cond)
    ensures Body(Or(l, r)) == Body(l) + [OR] + Print(r, 1)
    ensures Body(And(l, r)) == Print(l, 1) + [AND] + Print(r, 2)
    ensures Body(l) != [] && Print(l, 1) != [] && Print(r, 1) != [] && Print(r, 2) != []
  {
  }

  /** Where the parts of a printed disjunction stand. */
  lemma OrStands(ts: seq<Token>, pos: nat, l: Cond, r: Cond)
    requires At(ts, pos, Body(Or(l, r)))
    ensures At(ts, pos, Body(l)) && ts[pos + |Body(l)|] == OR
    ensures At(ts, pos + |Body(l)| + 1, Print(r, 1))
    ensures |Body(Or(l, r))| == |Body(l)| + 1 + |Print(r, 1)|
  {
    PairsPrint(l, r);
    AtPair(ts, pos, Body(l), OR, Print(r, 1));
  }

  lemma AndStands(ts: seq<Token>, pos: nat, l: Cond, r: Cond)
    requires At(ts, pos, Body(And(l, r)))
    ensures At(ts, pos, Print(l, 1)) && ts[pos + |Print(l, 1)|] == AND
    ensures At(ts, pos + |Print(l, 1)| + 1, Print(r, 2))
    ensures |Body(And(l, r))| == |Print(l, 1)| + 1 + |Print(r, 2)|
  {
    PairsPrint(l, r);
    AtPair(ts, pos, Print(l, 1), AND, Print(r, 2));
  }

  lemma {:induction false} OrReadsPair(resolve: Resolver, ts: seq<Token>, pos: nat, l: Cond, r: Cond)
    requires EndsInEof(ts) && Printable(l) && Printable(r)
    requires At(ts, pos, Body(Or(l, r))) && Stops(ts[pos + |Body(Or(l, r))|])
    ensures OrExpr(resolve, ts, pos) == ReadOr(resolve, ts, Meaning(resolve, Or(l, r)), pos + |Body(Or(l, r))|)
    decreases Or(l, r), 4
  {
    OrStands(ts, pos, l, r);
    var mid := pos + |Body(l)|;
    OrReadsBody(resolve, ts, pos, l);
    AndReadsWhole(resolve, ts, mid + 1, r);
    OrJoins(resolve, ts, pos, Meaning(resolve, l), mid, Meaning(resolve, r), pos + |Body(Or(l, r))|);
  }

  lemma {:induction false} AndReadsWhole(resolve: Resolver, ts: seq<Token>, pos: nat, c: Cond)
    requires EndsInEof(ts) && Printable(c)
    requires At(ts, pos, Print(c, 1)) && Stops(ts[pos + |Print(c, 1)|])
    ensures AndExpr(resolve, ts, pos) == Read(Meaning(resolve, c), pos + |Print(c, 1)|)
    decreases c, 9
  {
    AndReadsPrint(resolve, ts, pos, c);
    AndTailStops(resolve, ts, pos + |Print(c, 1)|, Meaning(resolve, c));
  }

  /** Reading a left side, the operator and a right side reads the disjunction. */
  lemma OrJoins(
    resolve: Resolver, ts: seq<Token>, pos: nat,
    l: Result<bool, CondError>, mid: nat, r: Result<bool, CondError>, end: nat)
    requires EndsInEof(ts) && pos < |ts| && mid + 1 < |ts| && end < |ts|
    requires OrExpr(resolve, ts, pos) == ReadOr(resolve, ts, l, mid)
    requires ts[mid].kind.OrToken? && AndExpr(resolve, ts, mid + 1) == Read(r, end)
    ensures OrExpr(resolve, ts, pos) == ReadOr(resolve, ts, Both(l, r, (a: bool, b: bool) => a || b), end)
  {
  }

  lemma AndJoins(
    resolve: Resolver, ts: seq<Token>, pos: nat,
    l: Result<bool, CondError>, mid: nat, r: Result<bool, CondError>, end: nat)
    requires EndsInEof(ts) && pos < |ts| && mid + 1 < |ts| && end < |ts|
    requires AndExpr(resolve, ts, pos) == ReadAnd(resolve, ts, l, mid)
    requires ts[mid].kind.AndToken? && NotExpr(resolve, ts, mid + 1) == Read(r, end)
    ensures AndExpr(resolve, ts, pos) == ReadAnd(resolve, ts, Both(l, r, (a: bool, b: bool) => a && b), end)
  {
  }

  lemma AndTailStops(resolve: Resolver, ts: seq<Token>, pos: nat, m: Result<bool, CondError>)
    requires EndsInEof(ts) && pos < |ts| && !ts[pos].kind.AndToken?
    ensures ReadAnd(resolve, ts, m, pos) == Read(m, pos)
  {
  }

  /** An and-expression reads a bare tree of level 1 and up. */
  lemma {:induction false} AndReadsBody(resolve: Resolver, ts: seq<Token>, pos: nat, c: Cond)
    requires EndsInEof(ts) && Printable(c) && Level(c) >= 1
    requires At(ts, pos, Body(c)) && !IsComparison(ts[pos + |Body(c)|].kind)
    ensures AndExpr(resolve, ts, pos) == ReadAnd(resolve, ts, Meaning(resolve, c), pos + |Body(c)|)
    decreases c, 3
  {
    if c.And? {
      AndReadsPair(resolve, ts, pos, c.l, c.r);
    } else {
      NotReadsBody(resolve, ts, pos, c);
    }
  }

  lemma {:induction false} AndReadsPair(resolve: Resolver, ts: seq<Token>, pos: nat, l: Cond, r: Cond)
    requires EndsInEof(ts) && Printable(l) && Printable(r)
    requires At(ts, pos, Body(And(l, r))) && !IsComparison(ts[pos + |Body(And(l, r))|].kind)
    ensures AndExpr(resolve, ts, pos) == ReadAnd(resolve, ts, Meaning(resolve, And(l, r)), pos + |Body(And(l, r))|)
    decreases And(l, r), 2
  {
    AndStands(ts, pos, l, r);
    var mid := pos + |Print(l, 1)|;
    AndReadsPrint(resolve, ts, pos, l);
    NotReadsPrint(resolve, ts, mid + 1, r);
    AndJoins(resolve, ts, pos, Meaning(resolve, l), mid, Meaning(resolve, r), pos + |Body(And(l, r))|);
  }

  lemma {:induction false} AndReadsPrint(resolve: Resolver, ts: seq<Token>, pos: nat, c: Cond)
    requires EndsInEof(ts) && Printable(c)
    requires At(ts, pos, Print(c, 1)) && !IsComparison(ts[pos + |Print(c, 1)|].kind)
    ensures AndExpr(resolve, ts, pos) == ReadAnd(resolve, ts, Meaning(resolve, c), pos + |Print(c, 1)|)
    decreases c, 8
  {
    if Level(c) >= 1 {
      AndReadsBody(resolve, ts, pos, c);
    } else {
      NotReadsPrint(resolve, ts, pos, c);
    }
  }

  lemma {:induction false} NotReadsBody(resolve: Resolver, ts: seq<Token>, pos: nat, c: Cond)
    requires EndsInEof(ts) && Printable(c) && Level(c) >= 2
    requires At(ts, pos, Body(c)) && !IsComparison(ts[pos + |Body(c)|].kind)
    ensures NotExpr(resolve, ts, pos) == Read(Meaning(resolve, c), pos + |Body(c)|)
    decreases c, 2
  {
    if c.Not? {
      AtSplit(ts, pos, [NOT], Print(c.c, 2));
      NotReadsPrint(resolve, ts, pos + 1, c.c);
    } else {
      AtomsRead(resolve, ts, pos, c);
    }
  }

  lemma {:induction false} NotReadsPrint(resolve: Resolver, ts: seq<Token>, pos: nat, c: Cond)
    requires EndsInEof(ts) && Printable(c)
    requires At(ts, pos, Print(c, 2)) && !IsComparison(ts[pos + |Print(c, 2)|].kind)
    ensures NotExpr(resolve, ts, pos) == Read(Meaning(resolve, c), pos + |Print(c, 2)|)
    decreases c, 7
  {
    if Level(c) >= 2 {
      NotReadsBody(resolve, ts, pos, c);
    } else {
      ParensRead(resolve, ts, pos, c);
    }
  }

  lemma {:induction false} ParensRead(resolve: Resolver, ts: seq<Token>, pos: nat, c: Cond)
    requires EndsInEof(ts) && Printable(c)
    requires At(ts, pos, [OPEN] + Body(c) + [CLOSE])
    ensures NotExpr(resolve, ts, pos) == Read(Meaning(resolve, c), pos + |Body(c)| + 2)
    decreases c, 6
  {
    PrintedIsNonempty(c, 0);
    AtParens(ts, pos, Body(c));
    OrReadsBody(resolve, ts, pos + 1, c);
  }

  lemma AtomsCompare(resolve: Resolver, lhs: Atom, op: TokenKind, rhs: Atom)
    requires IsComparison(op)
    ensures var x, y := AtomMeaning(resolve, lhs), AtomMeaning(resolve, rhs);
            x.Ok? && y.Ok? ==> Compare(x.value, op, y.value) == Relates(x.value, op, y.value)
  {
    var x, y := AtomMeaning(resolve, lhs), AtomMeaning(resolve, rhs);
    if x.Ok? && y.Ok? {
      CompareRelates(x.value, op, y.value);
    }
  }

  lemma AtomHolds(resolve: Resolver, a: Atom)
    ensures AtomMeaning(resolve, a).Ok? ==>
              AsTruthy(AtomMeaning(resolve, a).value) == Holds(AtomMeaning(resolve, a).value)
  {
    if AtomMeaning(resolve, a).Ok? {
      TruthyHolds(AtomMeaning(resolve, a).value);
    }
  }

  lemma AtomsRead(resolve: Resolver, ts: seq<Token>, pos: nat, c: Cond)
    requires EndsInEof(ts) && Printable(c) && Level(c) == 3
    requires At(ts, pos, Body(c)) && !IsComparison(ts[pos + |Body(c)|].kind)
    ensures NotExpr(resolve, ts, pos) == Read(Meaning(resolve, c), pos + |Body(c)|)
  {
    var body := Body(c);
    assert body[0] == ts[pos];
    if c.Compares? {
      assert body[1] == ts[pos + 1] && body[2] == ts[pos + 2];
      ComparisonRead(resolve, ts, pos, c.lhs, c.op, c.rhs);
    } else {
      AtomIsValue(resolve, c.a);
      AtomHolds(resolve, c.a);
    }
  }

  lemma ComparisonRead(resolve: Resolver, ts: seq<Token>, pos: nat, lhs: Atom, op: TokenKind, rhs: Atom)
    requires EndsInEof(ts) && pos + 3 < |ts| && IsComparison(op) && !lhs.Flag?
    requires ts[pos] == AtomToken(lhs) && ts[pos + 1] == OpToken(op) && ts[pos + 2] == AtomToken(rhs)
    ensures NotExpr(resolve, ts, pos) == Read(Meaning(resolve, Compares(lhs, op, rhs)), pos + 3)
  {
    AtomIsValue(resolve, lhs);
    AtomIsValue(resolve, rhs);
    AtomsCompare(resolve, lhs, op, rhs);
  }

  lemma AtomIsValue(resolve: Resolver, a: Atom)
    ensures ValueOf(resolve, AtomToken(a)) == AtomMeaning(resolve, a)
  {
    if a.Number? {
      ParseDenotes(a.raw);
    }
  }

  // ---- trees with a boolean literal on the left of a comparison ------------

  predicate OperatorsCompare(c: Cond) {
    match c
    case Or(l, r) => OperatorsCompare(l) && OperatorsCompare(r)
    case And(l, r) => OperatorsCompare(l) && OperatorsCompare(r)
    case Not(inner) => OperatorsCompare(inner)
    case Compares(_, op, _) => IsComparison(op)
    case Test(_) => true
  }

  /** Where the first comparison of a boolean literal stands: outside all printed parentheses, or inside some. */
  datatype Place = Nowhere | Outside | Inside

  function Literal(c: Cond): Place {
    match c
    case Or(l, r) => if Literal(l) != Nowhere then Literal(l) else LiteralIn(Literal(r), r, 1)
    case And(l, r) => if Literal(l) != Nowhere then LiteralIn(Literal(l), l, 1) else LiteralIn(Literal(r), r, 2)
    case Not(inner) => LiteralIn(Literal(inner), inner, 2)
    case Compares(lhs, _, _) => if lhs.Flag? then Outside else Nowhere
    case Test(_) => Nowhere
  }

  function LiteralIn(place: Place, c: Cond, level: nat): Place {
    if place == Outside && Level(c) < level then Inside else place
  }

  /** The part of such a tree that is read: up to that literal, which stands for its comparison. */
  function Kept(c: Cond): Cond {
    match c
    case Or(l, r) => if Literal(l) != Nowhere then Kept(l) else Or(l, Kept(r))
    case And(l, r) => if Literal(l) != Nowhere then Kept(l) else And(l, Kept(r))
    case Not(inner) => Not(Kept(inner))
    case Compares(lhs, _, _) => Test(lhs)
    case Test(_) => c
  }

  /**
   What is read of such a tree: outside parentheses the part kept, with the operator next;
   inside them a parenthesis that is not closed there.
   */
  ghost predicate Interrupted(ts: seq<Token>, r: Parsed, place: Place, m: Result<bool, CondError>) {
    if m.Err? then r == Err(m.error)
    else if place == Inside then r == Err(ExpectedParen)
    else r.Ok? && r.value.0 == m.value && r.value.1 < |ts| && IsComparison(ts[r.value.1].kind)
  }

  lemma {:induction false} PrintableWhen(c: Cond)
    ensures Printable(c) <==> OperatorsCompare(c) && Literal(c) == Nowhere
  {
    match c
    case Or(l, r) => PrintableWhen(l); PrintableWhen(r);
    case And(l, r) => PrintableWhen(l); PrintableWhen(r);
    case Not(inner) => PrintableWhen(inner);
    case _ =>
  }

  /** A comparison operator ends every loop of the evaluator. */
  lemma TailsStop(resolve: Resolver, ts: seq<Token>, pos: nat, place: Place, m: Result<bool, CondError>)
    requires EndsInEof(ts) && pos < |ts| && place != Nowhere
    ensures Interrupted(ts, NotExpr(resolve, ts, pos), place, m) ==> Interrupted(ts, AndExpr(resolve, ts, pos), place, m)
    ensures Interrupted(ts, AndExpr(resolve, ts, pos), place, m) ==> Interrupted(ts, OrExpr(resolve, ts, pos), place, m)
  {
  }

  lemma OrInterrupted(
    resolve: Resolver, ts: seq<Token>, pos: nat, l: Result<bool, CondError>, mid: nat, place: Place,
    r: Result<bool, CondError>)
    requires EndsInEof(ts) && pos < |ts| && mid + 1 < |ts| && place != Nowhere
    requires OrExpr(resolve, ts, pos) == ReadOr(resolve, ts, l, mid)
    requires ts[mid].kind.OrToken? && Interrupted(ts, AndExpr(resolve, ts, mid + 1), place, r)
    ensures Interrupted(ts, OrExpr(resolve, ts, pos), place, Both(l, r, (a: bool, b: bool) => a || b))
  {
    var right := AndExpr(resolve, ts, mid + 1);
    if l.Ok? && right.Ok? {
      var next := right.value.1;
      assert OrTail(resolve, ts, next, l.value || right.value.0) == Ok((l.value || right.value.0, next));
    }
  }

  lemma AndInterrupted(
    resolve: Resolver, ts: seq<Token>, pos: nat, l: Result<bool, CondError>, mid: nat, place: Place,
    r: Result<bool, CondError>)
    requires EndsInEof(ts) && pos < |ts| && mid + 1 < |ts| && place != Nowhere
    requires AndExpr(resolve, ts, pos) == ReadAnd(resolve, ts, l, mid)
    requires ts[mid].kind.AndToken? && Interrupted(ts, NotExpr(resolve, ts, mid + 1), place, r)
    ensures Interrupted(ts, AndExpr(resolve, ts, pos), place, Both(l, r, (a: bool, b: bool) => a && b))
  {
    var right := NotExpr(resolve, ts, mid + 1);
    if l.Ok? && right.Ok? {
      var next := right.value.1;
      assert AndTail(resolve, ts, next, l.value && right.value.0) == Ok((l.value && right.value.0, next));
    }
  }

  lemma NotInterrupted(resolve: Resolver, ts: seq<Token>, pos: nat, inner: Cond, place: Place)
    requires EndsInEof(ts) && pos + 1 < |ts| && ts[pos].kind.NotToken? && place != Nowhere
    requires Interrupted(ts, NotExpr(resolve, ts, pos + 1), place, Meaning(resolve, inner))
    ensures Interrupted(ts, NotExpr(resolve, ts, pos), place, Meaning(resolve, Not(inner)))
  {
  }

  lemma ParensInterrupted(resolve: Resolver, ts: seq<Token>, pos: nat, place: Place, m: Result<bool, CondError>)
    requires EndsInEof(ts) && pos + 1 < |ts| && ts[pos].kind.LParen? && place != Nowhere
    requires Interrupted(ts, OrExpr(resolve, ts, pos + 1), place, m)
    ensures Interrupted(ts, NotExpr(resolve, ts, pos), Inside, m)
  {
  }

  lemma {:induction false} OrReadsKept(resolve: Resolver, ts: seq<Token>, pos: nat, c: Cond)
    requires EndsInEof(ts) && OperatorsCompare(c) && Literal(c) != Nowhere && At(ts, pos, Body(c))
    ensures Interrupted(ts, OrExpr(resolve, ts, pos), Literal(c), Meaning(resolve, Kept(c)))
    decreases c, 5
  {
    if c.Or? {
      OrStands(ts, pos, c.l, c.r);
      PrintableWhen(c.l);
      if Literal(c.l) != Nowhere {
        OrReadsKept(resolve, ts, pos, c.l);
      } else {
        var mid, place := pos + |Body(c.l)|, LiteralIn(Literal(c.r), c.r, 1);
        OrReadsBody(resolve, ts, pos, c.l);
        AndReadsKept(resolve, ts, mid + 1, c.r);
        OrInterrupted(resolve, ts, pos, Meaning(resolve, c.l), mid, place, Meaning(resolve, Kept(c.r)));
      }
    } else {
      AndBodyReadsKept(resolve, ts, pos, c);
      TailsStop(resolve, ts, pos, Literal(c), Meaning(resolve, Kept(c)));
    }
  }

  lemma {:induction false} AndBodyReadsKept(resolve: Resolver, ts: seq<Token>, pos: nat, c: Cond)
    requires EndsInEof(ts) && OperatorsCompare(c) && Literal(c) != Nowhere && Level(c) >= 1 && At(ts, pos, Body(c))
    ensures Interrupted(ts, AndExpr(resolve, ts, pos), Literal(c), Meaning(resolve, Kept(c)))
    decreases c, 3
  {
    if c.And? {
      AndPairReadsKept(resolve, ts, pos, c.l, c.r);
    } else {
      NotBodyReadsKept(resolve, ts, pos, c);
      TailsStop(resolve, ts, pos, Literal(c), Meaning(resolve, Kept(c)));
    }
  }

  lemma {:induction false} AndPairReadsKept(resolve: Resolver, ts: seq<Token>, pos: nat, l: Cond, r: Cond)
    requires EndsInEof(ts) && OperatorsCompare(And(l, r)) && Literal(And(l, r)) != Nowhere
    requires At(ts, pos, Body(And(l, r)))
    ensures Interrupted(ts, AndExpr(resolve, ts, pos), Literal(And(l, r)), Meaning(resolve, Kept(And(l, r))))
    decreases And(l, r), 2
  {
    AndStands(ts, pos, l, r);
    if Literal(l) != Nowhere {
      AndReadsKept(resolve, ts, pos, l);
    } else {
      PrintableWhen(l);
      var mid, place := pos + |Print(l, 1)|, LiteralIn(Literal(r), r, 2);
      AndReadsPrint(resolve, ts, pos, l);
      NotReadsKept(resolve, ts, mid + 1, r);
      AndInterrupted(resolve, ts, pos, Meaning(resolve, l), mid, place, Meaning(resolve, Kept(r)));
    }
  }

  lemma {:induction false} AndReadsKept(resolve: Resolver, ts: seq<Token>, pos: nat, c: Cond)
    requires EndsInEof(ts) && OperatorsCompare(c) && Literal(c) != Nowhere && At(ts, pos, Print(c, 1))
    ensures Interrupted(ts, AndExpr(resolve, ts, pos), LiteralIn(Literal(c), c, 1), Meaning(resolve, Kept(c)))
    decreases c, 8
  {
    if Level(c) >= 1 {
      AndBodyReadsKept(resolve, ts, pos, c);
    } else {
      NotReadsKept(resolve, ts, pos, c);
      TailsStop(resolve, ts, pos, Inside, Meaning(resolve, Kept(c)));
    }
  }

  lemma {:induction false} NotBodyReadsKept(resolve: Resolver, ts: seq<Token>, pos: nat, c: Cond)
    requires EndsInEof(ts) && OperatorsCompare(c) && Literal(c) != Nowhere && Level(c) >= 2 && At(ts, pos, Body(c))
    ensures Interrupted(ts, NotExpr(resolve, ts, pos), Literal(c), Meaning(resolve, Kept(c)))
    decreases c, 2
  {
    if c.Not? {
      AtSplit(ts, pos, [NOT], Print(c.c, 2));
      NotReadsKept(resolve, ts, pos + 1, c.c);
      NotInterrupted(resolve, ts, pos, Kept(c.c), Literal(c));
    } else {
      var body := Body(c);
      assert body[0] == ts[pos] && body[1] == ts[pos + 1];
    }
  }

  lemma {:induction false} NotReadsKept(resolve: Resolver, ts: seq<Token>, pos: nat, c: Cond)
    requires EndsInEof(ts) && OperatorsCompare(c) && Literal(c) != Nowhere && At(ts, pos, Print(c, 2))
    ensures Interrupted(ts, NotExpr(resolve, ts, pos), LiteralIn(Literal(c), c, 2), Meaning(resolve, Kept(c)))
    decreases c, 7
  {
    if Level(c) >= 2 {
      NotBodyReadsKept(resolve, ts, pos, c);
    } else {
      PrintedIsNonempty(c, 0);
      AtParens(ts, pos, Body(c));
      OrReadsKept(resolve, ts, pos + 1, c);
      ParensInterrupted(resolve, ts, pos, Literal(c), Meaning(resolve, Kept(c)));
    }
  }

  /**
   What the printed form of any tree evaluates to: its meaning, or, when a comparison starts with a
   boolean literal, the meaning of the part up to the first such literal, which must stand outside
   all parentheses.
   */
  ghost function Answer(resolve: Resolver, c: Cond): Result<bool, CondError> {
    match Literal(c)
    case Nowhere => Meaning(resolve, c)
    case Outside => Meaning(resolve, Kept(c))
    case Inside =>
      var m := Meaning(resolve, Kept(c));
      if m.Err? then m else Err(ExpectedParen)
  }

  lemma LiteralAnswers(resolve: Resolver, b: bool, op: TokenKind, rhs: Atom)
    ensures Answer(resolve, Compares(Flag(b), op, rhs)) == Ok(b)
  {
    assert Kept(Compares(Flag(b), op, rhs)) == Test(Flag(b));
  }

  function Value(r: Parsed): Result<bool, CondError> {
    match r
    case Err(error) => Err(error)
    case Ok((value, _)) => Ok(value)
  }

  lemma TokensAnswer(resolve: Resolver, c: Cond)
    requires OperatorsCompare(c)
    ensures Value(OrExpr(resolve, Print(c, 0) + [EOF], 0)) == Answer(resolve, c)
  {
    var ts := Print(c, 0) + [EOF];
    assert At(ts, 0, Print(c, 0));
    if Literal(c) == Nowhere {
      PrintableWhen(c);
      OrReadsBody(resolve, ts, 0, c);
    } else {
      OrReadsKept(resolve, ts, 0, c);
    }
  }

  /** A printed tree, closed by `Eof`, evaluates to its meaning. */
  lemma TokensMean(resolve: Resolver, c: Cond)
    requires Printable(c)
    ensures OrExpr(resolve, Print(c, 0) + [EOF], 0) == Read(Meaning(resolve, c), |Print(c, 0)|)
  {
    var ts := Print(c, 0) + [EOF];
    assert At(ts, 0, Print(c, 0));
    OrReadsBody(resolve, ts, 0, c);
  }
}
