/// The expression evaluator: decides whether one declared license string is
/// acceptable under an allow-list. A declaration is an atomic identifier or a
/// parenthesised SPDX pairing "(L AND R)", "(L OR R)" or "(L WITH E)". The
/// whole string is first looked up verbatim in the allow-list; failing that,
/// AND needs both sides, OR needs either side, and WITH is never taken apart.
module Expression {
  import opened Util

  datatype Op = AndOp | OrOp | WithOp

  /** A declaration as a tree. A WITH pairing keeps its two halves as text,
      because it is only ever checked as a whole. */
  datatype Expr =
    | Atom(id: string)
    | And(left: Expr, right: Expr)
    | Or(left: Expr, right: Expr)
    | With(license: string, exception: string)

  function OpText(op: Op): string
  {
    match op
    case AndOp => "AND"
    case OrOp => "OR"
    case WithOp => "WITH"
  }

  /** "l OP r", the inside of a pairing. */
  function Inside(l: string, op: Op, r: string): string
  {
    l + " " + OpText(op) + " " + r
  }

  /** "(l OP r)", the text of a pairing. */
  function PairText(l: string, op: Op, r: string): string
  {
    "(" + Inside(l, op, r) + ")"
  }

  /** The declaration text of a tree. */
  function Render(e: Expr): string
  {
    match e
    case Atom(s) => s
    case And(l, r) => PairText(Render(l), AndOp, Render(r))
    case Or(l, r) => PairText(Render(l), OrOp, Render(r))
    case With(a, b) => PairText(a, WithOp, b)
  }

  // ---- reading a declaration ----

  /** How a character changes the parenthesis nesting depth. */
  function Delta(c: char): int
  {
    if c == '(' then 1 else if c == ')' then -1 else 0
  }

  /** Nesting depth change over the whole of `s`. */
  function Depth(s: string): int
  {
    if s == [] then 0 else Delta(s[0]) + Depth(s[1..])
  }

  /** Offset of the first space in `s` met at nesting depth zero, the scan
      starting at depth `d`. */
  function TopSpace(s: string, d: int): (r: Option<nat>)
    ensures r.Some? ==> r.value < |s| && s[r.value] == ' '
  {
    if s == [] then None
    else if s[0] == ' ' && d == 0 then Some(0)
    else match TopSpace(s[1..], d + Delta(s[0]))
      case None => None
      case Some(k) => Some(k + 1)
  }

  /** The inside of a pairing, cut as "left OP right". */
  datatype Pairing = Pairing(left: string, op: Op, right: string)

  /** What comes before the first top-level space has none. */
  lemma {:induction false} FirstTopSpace(s: string, i: nat, d: int := 0)
    requires TopSpace(s, d) == Some(i)
    ensures i <= |s| && TopSpace(s[..i], d).None?
  {
    if i > 0 {
      FirstTopSpace(s[1..], i - 1, d + Delta(s[0]));
      assert s[..i][1..] == s[1..][..i - 1];
    }
  }

  /** A word that opens `rest` is cut off the front of it. */
  lemma CutWord(rest: string, w: string)
    requires |w| <= |rest| && rest[..|w|] == w
    ensures rest == w + rest[|w|..]
  {
  }

  /** Reads the operator word opening "OP right", with its space, and gives
      the operator and what follows. */
  function ReadOp(rest: string): (r: Option<(Op, string)>)
    ensures r.Some? ==> rest == OpText(r.value.0) + " " + r.value.1 && r.value.1 != []
  {
    if |rest| > 4 && rest[..4] == "AND " then
      CutWord(rest, "AND ");
      Some((AndOp, rest[4..]))
    else if |rest| > 3 && rest[..3] == "OR " then
      CutWord(rest, "OR ");
      Some((OrOp, rest[3..]))
    else if |rest| > 5 && rest[..5] == "WITH " then
      CutWord(rest, "WITH ");
      Some((WithOp, rest[5..]))
    else None
  }

  /** Cuts the inside of a parenthesised declaration at its first top-level
      space, then reads the operator after it. A right operand that still has
      a top-level space (a second operator, as in "A OR B OR C") makes the
      text no pairing at all. */
  function SplitPairing(inner: string): (r: Option<Pairing>)
    ensures r.Some? ==> inner == Inside(r.value.left, r.value.op, r.value.right)
    ensures r.Some? ==> r.value.left != [] && r.value.right != []
    ensures r.Some? ==> TopSpace(r.value.left, 0).None? && TopSpace(r.value.right, 0).None?
  {
    match TopSpace(inner, 0)
    case None => None
    case Some(i) =>
      match ReadOp(inner[i + 1..])
      case None => None
      case Some((op, right)) =>
        if i == 0 || TopSpace(right, 0).Some? then None
        else
          CutInside(inner, i, op, right);
          Some(Pairing(inner[..i], op, right))
  }

  /** The step of SplitPairing: "left OP right" cut at its first top-level
      space and read past the operator. */
  lemma CutInside(inner: string, i: nat, op: Op, right: string)
    requires TopSpace(inner, 0) == Some(i)
    requires inner[i + 1..] == OpText(op) + " " + right
    ensures inner == Inside(inner[..i], op, right) && TopSpace(inner[..i], 0).None?
  {
    CutAt(inner, i);
    assert Inside(inner[..i], op, right) == inner[..i] + " " + (OpText(op) + " " + right);
    FirstTopSpace(inner, i);
  }

  /** A text is what comes before its space at `i`, the space, and the rest. */
  lemma CutAt(s: string, i: nat)
    requires i < |s| && s[i] == ' '
    ensures s == s[..i] + " " + s[i + 1..]
  {
    assert s == s[..i] + s[i..];
    assert s[i..] == " " + s[i + 1..];
  }

  /** The AND or OR node over two operand trees. */
  function Node(op: Op, l: Expr, r: Expr): Expr
    requires op != WithOp
  {
    if op == AndOp then And(l, r) else Or(l, r)
  }

  /** Reads a declaration. A parenthesised text is a pairing when its inside
      cuts as "left OP right" and both sides read as operands (for WITH, as
      identifiers). Anything else is one atomic text, spaces included
      ("random thing"), so a pairing never has a side that is not an operand. */
  function Parse(s: string): (e: Expr)
    ensures e == Atom(s) || Operand(e)
    decreases |s|
  {
    if |s| >= 2 && s[0] == '(' && s[|s| - 1] == ')' then
      match SplitPairing(s[1..|s| - 1])
      case None => Atom(s)
      case Some(cut) =>
        if cut.op == WithOp then
          if IsId(cut.left) && IsId(cut.right) then With(cut.left, cut.right) else Atom(s)
        else
          var l, r := Parse(cut.left), Parse(cut.right);
          if Operand(l) && Operand(r) then Node(cut.op, l, r) else Atom(s)
    else Atom(s)
  }

  /** Reading loses nothing: the tree of any string renders back to it. */
  lemma {:induction false} RenderParse(s: string)
    ensures Render(Parse(s)) == s
    decreases |s|
  {
    if |s| >= 2 && s[0] == '(' && s[|s| - 1] == ')' {
      var inner := s[1..|s| - 1];
      var cut := SplitPairing(inner);
      if cut.Some? {
        var l, op, r := cut.value.left, cut.value.op, cut.value.right;
        Enclosed(s, l, op, r);
        if op == WithOp {
          assert Parse(s) == With(l, r) || Parse(s) == Atom(s);
        } else if Operand(Parse(l)) && Operand(Parse(r)) {
          RenderParse(l);
          RenderParse(r);
          assert Parse(s) == Node(op, Parse(l), Parse(r));
          RenderNode(op, Parse(l), Parse(r));
        } else {
          assert Parse(s) == Atom(s);
        }
      } else {
        assert Parse(s) == Atom(s);
      }
    } else {
      assert Parse(s) == Atom(s);
    }
  }

  /** A parenthesised text whose inside is "l OP r" is the pairing text. */
  lemma Enclosed(s: string, l: string, op: Op, r: string)
    requires |s| >= 2 && s[0] == '(' && s[|s| - 1] == ')' && s[1..|s| - 1] == Inside(l, op, r)
    ensures s == PairText(l, op, r) && |l| < |s| && |r| < |s|
  {
    assert s == [s[0]] + s[1..|s| - 1] + [s[|s| - 1]];
  }

  /** The pairing text is its inside between two parentheses. */
  lemma Unwrap(l: string, op: Op, r: string)
    ensures var s := PairText(l, op, r);
      |s| >= 2 && s[0] == '(' && s[|s| - 1] == ')' && s[1..|s| - 1] == Inside(l, op, r)
  {
  }

  lemma RenderNode(op: Op, l: Expr, r: Expr)
    requires op != WithOp
    ensures Render(Node(op, l, r)) == PairText(Render(l), op, Render(r))
  {
  }

  // ---- well-formed declarations read back to their trees ----

  /** A bare identifier inside a pairing: no spaces and no parentheses. */
  predicate IsId(s: string)
  {
    s != [] && forall k :: 0 <= k < |s| ==> s[k] != ' ' && s[k] != '(' && s[k] != ')'
  }

  /** A tree that may stand as an operand of a pairing. */
  predicate Operand(e: Expr)
  {
    match e
    case Atom(s) => IsId(s)
    case And(l, r) => Operand(l) && Operand(r)
    case Or(l, r) => Operand(l) && Operand(r)
    case With(a, b) => IsId(a) && IsId(b)
  }

  /** A tree that may stand as a whole declaration: a pairing of operands, or
      any atomic text that does not open with a parenthesis. */
  predicate WellFormed(e: Expr)
  {
    match e
    case Atom(s) => s == [] || s[0] != '('
    case _ => Operand(e)
  }

  /** No space of `s` sits at nesting depth zero, the scan starting at depth `d`. */
  predicate NoTopSpace(s: string, d: int)
  {
    s == [] || (!(s[0] == ' ' && d == 0) && NoTopSpace(s[1..], d + Delta(s[0])))
  }

  lemma {:induction false} DepthAppend(a: string, b: string)
    ensures Depth(a + b) == Depth(a) + Depth(b)
  {
    if a != [] {
      assert (a + b)[0] == a[0];
      assert (a + b)[1..] == a[1..] + b;
      DepthAppend(a[1..], b);
    } else {
      assert a + b == b;
    }
  }

  lemma {:induction false} NoTopSpaceAppend(a: string, b: string, d: int)
    requires NoTopSpace(a, d) && NoTopSpace(b, d + Depth(a))
    ensures NoTopSpace(a + b, d)
  {
    if a != [] {
      assert (a + b)[0] == a[0];
      assert (a + b)[1..] == a[1..] + b;
      NoTopSpaceAppend(a[1..], b, d + Delta(a[0]));
    } else {
      assert a + b == b;
    }
  }

  /** Scanning past a prefix with no top-level space. */
  lemma {:induction false} TopSpaceAppend(a: string, b: string, d: int)
    requires NoTopSpace(a, d)
    ensures TopSpace(a + b, d) ==
              match TopSpace(b, d + Depth(a)) { case None => None case Some(k) => Some(k + |a|) }
  {
    if a != [] {
      assert (a + b)[0] == a[0];
      assert (a + b)[1..] == a[1..] + b;
      TopSpaceAppend(a[1..], b, d + Delta(a[0]));
    } else {
      assert a + b == b;
    }
  }

  /** Text without parentheses leaves the depth alone, and has no top-level
      space when it has no space at all or is scanned away from depth zero. */
  lemma {:induction false} FlatText(s: string, d: int)
    requires forall k :: 0 <= k < |s| ==> s[k] != '(' && s[k] != ')'
    requires d != 0 || forall k :: 0 <= k < |s| ==> s[k] != ' '
    ensures Depth(s) == 0 && NoTopSpace(s, d)
  {
    if s != [] {
      FlatText(s[1..], d);
    }
  }

  /** The text of an operand is balanced and has no top-level space. */
  lemma {:induction false} OperandText(e: Expr, d: int)
    requires Operand(e) && d >= 0
    ensures Depth(Render(e)) == 0 && NoTopSpace(Render(e), d)
  {
    match e
    case Atom(s) => FlatText(s, d);
    case And(l, r) =>
      OperandText(l, d + 1);
      OperandText(r, d + 1);
      PairingText(Render(l), AndOp, Render(r), d);
    case Or(l, r) =>
      OperandText(l, d + 1);
      OperandText(r, d + 1);
      PairingText(Render(l), OrOp, Render(r), d);
    case With(a, b) =>
      FlatText(a, d + 1);
      FlatText(b, d + 1);
      PairingText(a, WithOp, b, d);
  }

  /** A parenthesised pairing of balanced operands is balanced, and all its
      spaces sit inside the parentheses. */
  lemma PairingText(l: string, op: Op, r: string, d: int)
    requires d >= 0
    requires Depth(l) == 0 && NoTopSpace(l, d + 1)
    requires Depth(r) == 0 && NoTopSpace(r, d + 1)
    ensures Depth(PairText(l, op, r)) == 0 && NoTopSpace(PairText(l, op, r), d)
  {
    var o := OpText(op);
    FlatText(o, d + 1);
    FlatText(" ", d + 1);
    DepthAppend(l, " ");
    NoTopSpaceAppend(l, " ", d + 1);
    DepthAppend(l + " ", o);
    NoTopSpaceAppend(l + " ", o, d + 1);
    DepthAppend(l + " " + o, " ");
    NoTopSpaceAppend(l + " " + o, " ", d + 1);
    DepthAppend(l + " " + o + " ", r);
    NoTopSpaceAppend(l + " " + o + " ", r, d + 1);
    var inside := Inside(l, op, r);
    assert Depth("(") == 1 && NoTopSpace("(", d);
    assert Depth(")") == -1 && NoTopSpace(")", d + 1);
    DepthAppend("(", inside);
    NoTopSpaceAppend("(", inside, d);
    DepthAppend("(" + inside, ")");
    NoTopSpaceAppend("(" + inside, ")", d);
  }

  /** The inside of a rendered pairing is cut back at its operator. */
  lemma SplitRendered(lt: string, op: Op, rt: string)
    requires Depth(lt) == 0 && NoTopSpace(lt, 0) && lt != [] && rt != [] && NoTopSpace(rt, 0)
    ensures SplitPairing(Inside(lt, op, rt)) == Some(Pairing(lt, op, rt))
  {
    var rest := OpText(op) + " " + rt;
    var inner := lt + " " + rest;
    assert inner == lt + " " + OpText(op) + " " + rt;
    CutAtOperand(lt, rest);
    assert inner[..|lt|] == lt;
    assert inner[|lt| + 1..] == rest;
    ReadOperator(op, rt);
    NoTopSpaceNone(rt);
  }

  lemma CutAtOperand(lt: string, rest: string)
    requires Depth(lt) == 0 && NoTopSpace(lt, 0)
    ensures TopSpace(lt + " " + rest, 0) == Some(|lt|)
  {
    assert lt + " " + rest == lt + (" " + rest);
    TopSpaceAppend(lt, " " + rest, 0);
  }

  /** Text with no top-level space is not cut. */
  lemma NoTopSpaceNone(s: string)
    requires NoTopSpace(s, 0)
    ensures TopSpace(s, 0).None?
  {
    TopSpaceAppend(s, [], 0);
    assert s + [] == s;
  }

  /** ReadOp picks out `op` from "OP right". */
  lemma ReadOperator(op: Op, rt: string)
    requires rt != []
    ensures ReadOp(OpText(op) + " " + rt) == Some((op, rt))
  {
    var rest := OpText(op) + " " + rt;
    match op
    case AndOp =>
      assert rest[..4] == "AND ";
    case OrOp =>
      assert rest[0] == 'O';
      assert rest[..3] == "OR ";
    case WithOp =>
      assert rest[0] == 'W' && rest[1] == 'I';
      assert rest[..5] == "WITH ";
  }

  /** Every well-formed tree is read back from its text. */
  lemma {:induction false} ParseRender(e: Expr)
    requires WellFormed(e)
    ensures Parse(Render(e)) == e
  {
    match e
    case Atom(s) =>
      assert Parse(s) == Atom(s);
    case With(a, b) =>
      ReadWith(a, b);
    case And(l, r) =>
      OperandNonEmpty(l);
      OperandNonEmpty(r);
      ParseRender(l);
      ParseRender(r);
      ReadNode(l, AndOp, r);
    case Or(l, r) =>
      OperandNonEmpty(l);
      OperandNonEmpty(r);
      ParseRender(l);
      ParseRender(r);
      ReadNode(l, OrOp, r);
  }

  /** The step of ParseRender for a WITH pairing. */
  lemma ReadWith(a: string, b: string)
    requires IsId(a) && IsId(b)
    ensures Parse(Render(With(a, b))) == With(a, b)
  {
    FlatText(a, 0);
    FlatText(b, 0);
    SplitRendered(a, WithOp, b);
    Unwrap(a, WithOp, b);
  }

  /** The step of ParseRender for an AND or OR node. */
  lemma ReadNode(l: Expr, op: Op, r: Expr)
    requires op != WithOp && Operand(l) && Operand(r)
    requires Parse(Render(l)) == l && Parse(Render(r)) == r
    ensures Parse(Render(Node(op, l, r))) == Node(op, l, r)
  {
    OperandText(l, 0);
    OperandText(r, 0);
    OperandNonEmpty(l);
    OperandNonEmpty(r);
    SplitRendered(Render(l), op, Render(r));
    Unwrap(Render(l), op, Render(r));
    RenderNode(op, l, r);
  }

  lemma OperandNonEmpty(e: Expr)
    requires Operand(e)
    ensures Render(e) != [] && WellFormed(e)
  {
  }

  // ---- evaluation ----

  /** Whether a declaration tree is acceptable under `allowed`: its whole text
      is listed, or it is an AND both of whose sides are acceptable, or an OR
      with an acceptable side. A WITH pairing is acceptable only when listed
      whole. */
  function Satisfied(e: Expr, allowed: seq<string>): bool
  {
    Render(e) in allowed ||
    match e
    case And(l, r) => Satisfied(l, allowed) && Satisfied(r, allowed)
    case Or(l, r) => Satisfied(l, allowed) || Satisfied(r, allowed)
    case _ => false
  }

  /** Whether a declared license string is acceptable under `allowed`. A
      listed string is always acceptable; a string that is not an AND or OR
      pairing is acceptable only when listed. */
  function Accepts(license: string, allowed: seq<string>): (b: bool)
    ensures license in allowed ==> b
    ensures !Parse(license).And? && !Parse(license).Or? ==> (b <==> license in allowed)
  {
    RenderParse(license);
    Satisfied(Parse(license), allowed)
  }

  /** A bare identifier is accepted exactly when it is listed. */
  lemma AcceptsId(id: string, allowed: seq<string>)
    requires IsId(id)
    ensures Accepts(id, allowed) <==> id in allowed
  {
    ParseRender(Atom(id));
  }

  /** A parenthesised chain of two operators, such as "(A OR B OR C)", is no
      pairing: it is read as one atomic text, accepted only when listed. */
  lemma ChainIsText(a: string, op1: Op, b: string, op2: Op, c: string, allowed: seq<string>)
    requires IsId(a) && IsId(b) && IsId(c)
    ensures var s := PairText(a, op1, Inside(b, op2, c));
      Parse(s) == Atom(s) && (Accepts(s, allowed) <==> s in allowed)
  {
    ChainNotSplit(a, op1, b, op2, c);
    Unwrap(a, op1, Inside(b, op2, c));
  }

  /** The step of ChainIsText: the cut after the operator leaves a right
      operand with a top-level space, so SplitPairing refuses the text. */
  lemma ChainNotSplit(a: string, op1: Op, b: string, op2: Op, c: string)
    requires IsId(a) && IsId(b)
    ensures SplitPairing(Inside(a, op1, Inside(b, op2, c))).None?
  {
    var right := Inside(b, op2, c);
    FlatText(a, 0);
    FlatText(b, 0);
    assert right == b + " " + (OpText(op2) + " " + c);
    CutAtOperand(b, OpText(op2) + " " + c);
    SplitRefused(a, op1, right);
  }

  /** A right operand with a top-level space is refused. */
  lemma SplitRefused(lt: string, op: Op, rt: string)
    requires Depth(lt) == 0 && NoTopSpace(lt, 0) && rt != [] && TopSpace(rt, 0).Some?
    ensures SplitPairing(lt + " " + OpText(op) + " " + rt).None?
  {
    var rest := OpText(op) + " " + rt;
    var inner := lt + " " + rest;
    assert inner == lt + " " + OpText(op) + " " + rt;
    CutAtOperand(lt, rest);
    assert inner[|lt| + 1..] == rest;
    ReadOperator(op, rt);
  }

  /** A pairing followed by more text, such as "(MIT OR GPL-3.0) AND (Zlib)",
      is no pairing: the cut after the first operator leaves a right side
      "GPL-3.0) AND (Zlib" that is no operand, so the whole text is read as
      one atom, accepted only when listed verbatim. */
  lemma JoinedGroupsIsText(a: string, op: Op, b: string, t: string, allowed: seq<string>)
    requires IsId(a) && IsId(b) && t != [] && t[|t| - 1] == ')'
    ensures var s := PairText(a, op, b) + t;
      Parse(s) == Atom(s) && (Accepts(s, allowed) <==> s in allowed)
  {
    var right := b + ")" + t[..|t| - 1];
    Regroup(a, op, b, t);
    assert right[0] == b[0] && right[|b|] == ')';
    assert Parse(right) == Atom(right) && !IsId(right);
    SideNotOperand(a, op, right);
  }

  /** "(a OP b)" followed by `t`, which ends in ")", is "(a OP right)". */
  lemma Regroup(a: string, op: Op, b: string, t: string)
    requires t != [] && t[|t| - 1] == ')'
    ensures PairText(a, op, b) + t == PairText(a, op, b + ")" + t[..|t| - 1])
  {
    assert t == t[..|t| - 1] + ")";
  }

  /** "(a OP right)" whose right side reads as an atom that is no
      identifier is read as one atom. */
  lemma SideNotOperand(a: string, op: Op, right: string)
    requires IsId(a) && right != [] && Parse(right) == Atom(right) && !IsId(right)
    ensures Parse(PairText(a, op, right)) == Atom(PairText(a, op, right))
  {
    Unwrap(a, op, right);
    SplitAfterId(a, op, right);
  }

  /** The inside "a OP right" with an identifier `a` is cut, if at all, right
      after `a` and its operator. */
  lemma SplitAfterId(a: string, op: Op, right: string)
    requires IsId(a) && right != []
    ensures var cut := SplitPairing(Inside(a, op, right));
      cut.None? || cut == Some(Pairing(a, op, right))
  {
    var rest := OpText(op) + " " + right;
    var inner := a + " " + rest;
    assert inner == Inside(a, op, right);
    FlatText(a, 0);
    CutAtOperand(a, rest);
    assert inner[..|a|] == a && inner[|a| + 1..] == rest;
    ReadOperator(op, right);
  }

  /** "(L AND R)" is accepted when listed whole or when both L and R are. */
  lemma AcceptsAnd(l: Expr, r: Expr, allowed: seq<string>)
    requires Operand(l) && Operand(r)
    ensures var s := PairText(Render(l), AndOp, Render(r));
      Accepts(s, allowed) <==> s in allowed || (Accepts(Render(l), allowed) && Accepts(Render(r), allowed))
  {
    ParseRender(And(l, r));
    OperandNonEmpty(l);
    OperandNonEmpty(r);
    ParseRender(l);
    ParseRender(r);
  }

  /** "(L OR R)" is accepted when listed whole or when L or R is. */
  lemma AcceptsOr(l: Expr, r: Expr, allowed: seq<string>)
    requires Operand(l) && Operand(r)
    ensures var s := PairText(Render(l), OrOp, Render(r));
      Accepts(s, allowed) <==> s in allowed || Accepts(Render(l), allowed) || Accepts(Render(r), allowed)
  {
    ParseRender(Or(l, r));
    OperandNonEmpty(l);
    OperandNonEmpty(r);
    ParseRender(l);
    ParseRender(r);
  }

  /** "(L WITH E)" is accepted only when listed whole: listing L and E
      separately is not enough. */
  lemma AcceptsWith(a: string, b: string, allowed: seq<string>)
    requires IsId(a) && IsId(b)
    ensures Accepts(PairText(a, WithOp, b), allowed) <==> PairText(a, WithOp, b) in allowed
  {
    ParseRender(With(a, b));
  }

  /** The ways a tree can be accepted, each a set of texts that must all be
      listed: the tree's whole text, or for AND one way for each side
      together, or for OR one way for either side. */
  function Ways(e: Expr): set<set<string>>
  {
    {{Render(e)}} +
    match e
    case And(l, r) => set x, y | x in Ways(l) && y in Ways(r) :: x + y
    case Or(l, r) => Ways(l) + Ways(r)
    case _ => {}
  }

  predicate Covered(way: set<string>, allowed: seq<string>)
  {
    forall t :: t in way ==> t in allowed
  }

  /** The evaluator agrees with the enumeration of ways: a tree is satisfied
      exactly when one of its ways is wholly listed. */
  lemma {:induction false} SatisfiedByWay(e: Expr, allowed: seq<string>)
    ensures Satisfied(e, allowed) <==> exists way :: way in Ways(e) && Covered(way, allowed)
  {
    var whole: set<string> := {Render(e)};
    assert whole in Ways(e);
    if Render(e) in allowed {
      assert Covered(whole, allowed);
    } else {
      match e
      case Atom(_) =>
        assert Ways(e) == {whole};
      case With(_, _) =>
        assert Ways(e) == {whole};
      case And(l, r) =>
        SatisfiedByWay(l, allowed);
        SatisfiedByWay(r, allowed);
        if Satisfied(l, allowed) && Satisfied(r, allowed) {
          var x :| x in Ways(l) && Covered(x, allowed);
          var y :| y in Ways(r) && Covered(y, allowed);
          assert x + y in Ways(e);
          assert Covered(x + y, allowed);
        }
        forall way | way in Ways(e) && Covered(way, allowed)
          ensures Satisfied(l, allowed) && Satisfied(r, allowed)
        {
          assert way != whole;
          var x, y :| x in Ways(l) && y in Ways(r) && way == x + y;
          assert Covered(x, allowed) && Covered(y, allowed);
        }
      case Or(l, r) =>
        SatisfiedByWay(l, allowed);
        SatisfiedByWay(r, allowed);
        forall way | way in Ways(e) && Covered(way, allowed)
          ensures Satisfied(l, allowed) || Satisfied(r, allowed)
        {
          assert way != whole;
        }
    }
  }

  /** Listing more licenses never makes a declaration unacceptable. */
  lemma {:induction false} SatisfiedMonotone(e: Expr, allowed: seq<string>, more: seq<string>)
    requires forall t :: t in allowed ==> t in more
    requires Satisfied(e, allowed)
    ensures Satisfied(e, more)
  {
    if Render(e) !in allowed {
      match e
      case And(l, r) =>
        SatisfiedMonotone(l, allowed, more);
        SatisfiedMonotone(r, allowed, more);
      case Or(l, r) =>
        if Satisfied(l, allowed) {
          SatisfiedMonotone(l, allowed, more);
        } else {
          SatisfiedMonotone(r, allowed, more);
        }
    }
  }
}
