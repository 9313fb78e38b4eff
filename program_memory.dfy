/**
 * Day 3: corrupted program memory. A scanner repeatedly finds the leftmost
 * `mul(X,Y)`, `do()` or `don't()` token (X and Y of 1 to 3 digits; the
 * argument group may also be empty, and `do`/`don't` accept the same
 * arguments as `mul`), and a fold adds up the enabled products.
 */
module ProgramMemory {

  import opened Wrappers
  import opened Seqs

  /** The instructions the scanner produces. `MulNoArgs` is `mul()`, whose operands parse to NaN. */
  datatype Instruction = Mul(lhs: int, rhs: int) | MulNoArgs | Do | Dont

  /** The operand group of the token. */
  datatype Operator = MulOp | DoOp | DontOp

  /** The argument group: empty, or two digit strings around a comma. */
  datatype Args = NoArgs | Pair(first: string, second: string)

  /** A token found at some position: what it means and how many characters it spans. */
  datatype Match = Match(instruction: Instruction, length: nat)

  /** What `parseInstruction` returns: the instruction and the memory after the token. */
  datatype Parsed = Parsed(instruction: Instruction, programMemory: string)

  predicate IsDigit(c: char) { '0' <= c <= '9' }

  predicate AllDigits(d: string)
  {
    forall k :: 0 <= k < |d| ==> IsDigit(d[k])
  }

  /** The value of a decimal digit (only ever applied to digits). */
  function DigitValue(c: char): (v: nat)
    ensures v <= 9
    ensures IsDigit(c) ==> v as int == c as int - '0' as int
  {
    if IsDigit(c) then c as int - '0' as int else 0
  }

  /** `parseInt` of a digit string, read from the left. */
  function Value(d: string): nat
  {
    if d == [] then 0 else 10 * Value(d[..|d| - 1]) + DigitValue(d[|d| - 1])
  }

  /** A number of at most three digits is at most 999. */
  lemma {:induction false} ValueBound(d: string)
    ensures |d| <= 3 ==> Value(d) <= 999
    ensures Value(d) < Power10(|d|)
  {
    if d != [] {
      ValueBound(d[..|d| - 1]);
    }
    if |d| <= 3 {
      assert Power10(|d|) <= 1000 by {
        assert |d| == 0 || |d| == 1 || |d| == 2 || |d| == 3;
        assert Power10(0) == 1 && Power10(1) == 10 && Power10(2) == 100 && Power10(3) == 1000;
      }
    }
  }

  function Power10(n: nat): nat
  {
    if n == 0 then 1 else 10 * Power10(n - 1)
  }

  // The matcher.

  /** The length of the run of digits starting at `p`. */
  function DigitsAt(s: string, p: nat): (n: nat)
    requires p <= |s|
    ensures p + n <= |s|
    decreases |s| - p
  {
    if p < |s| && IsDigit(s[p]) then 1 + DigitsAt(s, p + 1) else 0
  }

  /** The run found is all digits, and the character after it (if any) is not a digit. */
  lemma {:induction false} DigitsAtRun(s: string, p: nat)
    requires p <= |s|
    ensures forall k :: p <= k < p + DigitsAt(s, p) ==> IsDigit(s[k])
    ensures p + DigitsAt(s, p) == |s| || !IsDigit(s[p + DigitsAt(s, p)])
    decreases |s| - p
  {
    if p < |s| && IsDigit(s[p]) {
      DigitsAtRun(s, p + 1);
    }
  }

  function OperatorText(op: Operator): string
  {
    match op
    case MulOp => "mul("
    case DoOp => "do("
    case DontOp => "don't("
  }

  /** The operand and opening parenthesis at `i`, if any (`mul`, then `do`, then `don't`). */
  function OperatorAt(s: string, i: nat): (r: Option<Operator>)
    ensures r.Some? ==> i + |OperatorText(r.value)| <= |s|
  {
    if i + 4 <= |s| && s[i] == 'm' && s[i + 1] == 'u' && s[i + 2] == 'l' && s[i + 3] == '(' then Some(MulOp)
    else if i + 3 <= |s| && s[i] == 'd' && s[i + 1] == 'o' && s[i + 2] == '(' then Some(DoOp)
    else if i + 6 <= |s| && s[i] == 'd' && s[i + 1] == 'o' && s[i + 2] == 'n' && s[i + 3] == '\'' && s[i + 4] == 't' && s[i + 5] == '(' then Some(DontOp)
    else None
  }

  function ArgsLength(a: Args): nat
  {
    match a
    case NoArgs => 0
    case Pair(x, y) => |x| + 1 + |y|
  }

  /** The argument group starting at `p` and the closing parenthesis after it, if any. */
  function ArgsAt(s: string, p: nat): (r: Option<Args>)
    requires p <= |s|
    ensures r.Some? ==> p + ArgsLength(r.value) < |s| && s[p + ArgsLength(r.value)] == ')'
    ensures r.Some? && r.value.Pair? ==> |r.value.first| <= 3 && |r.value.second| <= 3
  {
    var d1 := DigitsAt(s, p);
    if 1 <= d1 <= 3 && p + d1 < |s| && s[p + d1] == ',' then
      var d2 := DigitsAt(s, p + d1 + 1);
      if 1 <= d2 <= 3 && p + d1 + 1 + d2 < |s| && s[p + d1 + 1 + d2] == ')' then
        Some(Pair(s[p..p + d1], s[p + d1 + 1..p + d1 + 1 + d2]))
      else None
    else if p < |s| && s[p] == ')' then Some(NoArgs)
    else None
  }

  /** A parse tree of one token: the operand and its argument group. */
  datatype Tree = Tree(op: Operator, args: Args)

  /** The token regex anchored at `i`: the operand, then the argument group and `)`. */
  function TreeAt(s: string, i: nat): Option<Tree>
    requires i <= |s|
  {
    match OperatorAt(s, i)
    case None => None
    case Some(op) =>
      match ArgsAt(s, i + |OperatorText(op)|)
      case None => None
      case Some(a) => Some(Tree(op, a))
  }

  /** The instruction a token stands for; the arguments of `do` and `don't` are ignored. */
  function Meaning(t: Tree): Instruction
  {
    match t.op
    case MulOp => if t.args.NoArgs? then MulNoArgs else Mul(Value(t.args.first), Value(t.args.second))
    case DoOp => Do
    case DontOp => Dont
  }

  /** The text of an argument group. */
  function ArgsText(a: Args): (t: string)
    ensures |t| == ArgsLength(a)
  {
    match a
    case NoArgs => ""
    case Pair(x, y) => x + "," + y
  }

  /** The text of a token. */
  function Text(t: Tree): (text: string)
    ensures |text| == |OperatorText(t.op)| + ArgsLength(t.args) + 1
  {
    OperatorText(t.op) + ArgsText(t.args) + ")"
  }

  /** What the token regex matches when it is anchored at `i`. */
  function MatchAt(s: string, i: nat): (r: Option<Match>)
    requires i <= |s|
    ensures r.Some? ==> 4 <= r.value.length && i + r.value.length <= |s|
  {
    match TreeAt(s, i)
    case None => None
    case Some(t) => Some(Match(Meaning(t), |Text(t)|))
  }

  // The token grammar: a token is the text of a parse tree whose numbers have one to three digits.

  /** `\d{1,3}`. */
  ghost predicate IsDigits(d: string)
  {
    1 <= |d| <= 3 && AllDigits(d)
  }

  /** `\d{1,3},\d{1,3}|`. */
  ghost predicate WellFormed(t: Tree)
  {
    t.args.Pair? ==> IsDigits(t.args.first) && IsDigits(t.args.second)
  }

  /** `text` is a whole token of the grammar, and `ins` is the instruction it stands for. */
  ghost predicate Token(text: string, ins: Instruction)
  {
    exists t :: WellFormed(t) && Text(t) == text && Meaning(t) == ins
  }

  // The matcher accepts exactly the tokens of the grammar.

  /** Three consecutive pieces of a text. */
  lemma SlicePieces<T>(s: seq<T>, i: nat, u: seq<T>, v: seq<T>, w: seq<T>)
    requires i + |u| + |v| + |w| <= |s| && s[i..i + |u| + |v| + |w|] == u + v + w
    ensures s[i..i + |u|] == u
    ensures s[i + |u|..i + |u| + |v|] == v
    ensures s[i + |u| + |v|..i + |u| + |v| + |w|] == w
  {
    var e := i + |u| + |v| + |w|;
    forall k | 0 <= k < |u| ensures s[i..i + |u|][k] == u[k] {
      assert s[i + k] == s[i..e][k];
    }
    forall k | 0 <= k < |v| ensures s[i + |u|..i + |u| + |v|][k] == v[k] {
      assert s[i + |u| + k] == s[i..e][|u| + k];
    }
    forall k | 0 <= k < |w| ensures s[i + |u| + |v|..e][k] == w[k] {
      assert s[i + |u| + |v| + k] == s[i..e][|u| + |v| + k];
    }
  }

  /** The operator whose text stands at `i` is the one found there. */
  lemma OperatorAtOf(s: string, i: nat, op: Operator)
    requires i + |OperatorText(op)| <= |s| && s[i..i + |OperatorText(op)|] == OperatorText(op)
    ensures OperatorAt(s, i) == Some(op)
  {
    match op
    case MulOp =>
      var w := s[i..i + 4];
      assert w == "mul(";
      assert s[i] == w[0] && s[i + 1] == w[1] && s[i + 2] == w[2] && s[i + 3] == w[3];
    case DoOp =>
      var w := s[i..i + 3];
      assert w == "do(";
      assert s[i] == w[0] && s[i + 1] == w[1] && s[i + 2] == w[2];
    case DontOp =>
      var w := s[i..i + 6];
      assert w == "don't(";
      assert s[i] == w[0] && s[i + 1] == w[1] && s[i + 2] == w[2] && s[i + 3] == w[3] && s[i + 4] == w[4] && s[i + 5] == w[5];
  }

  /** The operator found at `i` is the text standing there. */
  lemma OperatorAtText(s: string, i: nat, op: Operator)
    requires OperatorAt(s, i) == Some(op)
    ensures i + |OperatorText(op)| <= |s| && s[i..i + |OperatorText(op)|] == OperatorText(op)
  {
    match op
    case MulOp => assert s[i..i + 4] == [s[i], s[i + 1], s[i + 2], s[i + 3]];
    case DoOp => assert s[i..i + 3] == [s[i], s[i + 1], s[i + 2]];
    case DontOp => assert s[i..i + 6] == [s[i], s[i + 1], s[i + 2], s[i + 3], s[i + 4], s[i + 5]];
  }

  lemma DigitsAtExact(s: string, p: nat, d: string)
    requires p + |d| <= |s| && s[p..p + |d|] == d && AllDigits(d)
    requires p + |d| == |s| || !IsDigit(s[p + |d|])
    ensures DigitsAt(s, p) == |d|
    decreases |d|
  {
    if d != [] {
      assert s[p] == d[0];
      assert s[p + 1..p + |d|] == d[1..];
      DigitsAtExact(s, p + 1, d[1..]);
    }
  }

  /** The argument group whose text stands at `p`, followed by `)`, is the one found there. */
  lemma ArgsAtOf(s: string, p: nat, a: Args)
    requires a.Pair? ==> IsDigits(a.first) && IsDigits(a.second)
    requires p + ArgsLength(a) < |s| && s[p..p + ArgsLength(a)] == ArgsText(a) && s[p + ArgsLength(a)] == ')'
    ensures ArgsAt(s, p) == Some(a)
  {
    if a.NoArgs? {
      assert DigitsAt(s, p) == 0;
    } else {
      var x, y := a.first, a.second;
      var q := p + |x| + 1;
      SlicePieces(s, p, x, ",", y);
      assert s[p + |x|] == s[p + |x|..q][0];
      DigitsAtExact(s, p, x);
      DigitsAtExact(s, q, y);
    }
  }

  /** Every parse tree whose text stands at `i` is the one the matcher finds there. */
  lemma TreeAtOf(s: string, i: nat, t: Tree)
    requires WellFormed(t)
    requires i + |Text(t)| <= |s| && s[i..i + |Text(t)|] == Text(t)
    ensures TreeAt(s, i) == Some(t)
  {
    var p := i + |OperatorText(t.op)|;
    TextPieces(s, i, t);
    OperatorAtOf(s, i, t.op);
    ArgsAtOf(s, p, t.args);
    TreeAtFromParts(s, i, t);
  }

  /** The operator, argument group and `)` of a tree's text standing at `i`. */
  lemma TextPieces(s: string, i: nat, t: Tree)
    requires i + |Text(t)| <= |s| && s[i..i + |Text(t)|] == Text(t)
    ensures i + |OperatorText(t.op)| + ArgsLength(t.args) < |s|
    ensures s[i..i + |OperatorText(t.op)|] == OperatorText(t.op)
    ensures s[i + |OperatorText(t.op)|..i + |OperatorText(t.op)| + ArgsLength(t.args)] == ArgsText(t.args)
    ensures s[i + |OperatorText(t.op)| + ArgsLength(t.args)] == ')'
  {
    var e := i + |OperatorText(t.op)| + ArgsLength(t.args);
    SlicePieces(s, i, OperatorText(t.op), ArgsText(t.args), ")");
    assert s[e] == s[e..e + 1][0];
  }

  /** The operator found at `i` and the argument group found after it make the tree found at `i`. */
  lemma TreeAtFromParts(s: string, i: nat, t: Tree)
    requires i + |OperatorText(t.op)| <= |s| && OperatorAt(s, i) == Some(t.op)
    requires ArgsAt(s, i + |OperatorText(t.op)|) == Some(t.args)
    ensures TreeAt(s, i) == Some(t)
  {
  }

  /** The two digit runs and the comma of an argument group the matcher finds. */
  lemma ArgsAtPair(s: string, p: nat, x: string, y: string)
    requires p <= |s| && ArgsAt(s, p) == Some(Pair(x, y))
    ensures DigitsAt(s, p) == |x| && DigitsAt(s, p + |x| + 1) == |y|
    ensures p + |x| + 1 + |y| < |s| && s[p..p + |x|] == x && s[p + |x|] == ',' && s[p + |x| + 1..p + |x| + 1 + |y|] == y
  {
  }

  /** A digit run is all digits. */
  lemma DigitsAtAll(s: string, p: nat, d: string)
    requires p + |d| <= |s| && DigitsAt(s, p) == |d| && s[p..p + |d|] == d
    ensures AllDigits(d)
  {
    DigitsAtRun(s, p);
    forall k | 0 <= k < |d| ensures IsDigit(d[k]) {
      assert d[k] == s[p + k];
    }
  }

  /** What the argument matcher finds is an argument group of the grammar. */
  lemma ArgsAtShape(s: string, p: nat, a: Args)
    requires p <= |s| && ArgsAt(s, p) == Some(a)
    ensures a.Pair? ==> IsDigits(a.first) && IsDigits(a.second)
  {
    if a.Pair? {
      var x, y := a.first, a.second;
      ArgsAtPair(s, p, x, y);
      DigitsAtAll(s, p, x);
      DigitsAtAll(s, p + |x| + 1, y);
    }
  }

  /** The argument group the matcher finds is the text it spans, and `)` follows it. */
  lemma ArgsAtText(s: string, p: nat, a: Args)
    requires p <= |s| && ArgsAt(s, p) == Some(a)
    ensures p + ArgsLength(a) < |s| && s[p..p + ArgsLength(a)] == ArgsText(a) && s[p + ArgsLength(a)] == ')'
  {
    if a.Pair? {
      var x, y := a.first, a.second;
      var q := p + |x| + 1;
      ArgsAtPair(s, p, x, y);
      assert s[p + |x|..q] == ",";
      SliceConcat3(s, p, p + |x|, q, q + |y|, x, ",", y);
    }
  }

  /** The parse tree the matcher finds is well formed, and its text is what stands at `i`. */
  lemma TreeAtText(s: string, i: nat, t: Tree)
    requires i <= |s| && TreeAt(s, i) == Some(t)
    ensures WellFormed(t)
    ensures i + |Text(t)| <= |s| && s[i..i + |Text(t)|] == Text(t)
  {
    var p := i + |OperatorText(t.op)|;
    TreeAtParts(s, i, t);
    ArgsAtShape(s, p, t.args);
    OperatorAtText(s, i, t.op);
    ArgsAtText(s, p, t.args);
    TreeTextOf(s, i, t);
  }

  /** The parse tree found at `i` is the operator found there and the argument group after it. */
  lemma TreeAtParts(s: string, i: nat, t: Tree)
    requires i <= |s| && TreeAt(s, i) == Some(t)
    ensures OperatorAt(s, i) == Some(t.op) && i + |OperatorText(t.op)| <= |s|
    ensures ArgsAt(s, i + |OperatorText(t.op)|) == Some(t.args)
  {
  }

  /** The text of a tree, laid out piece by piece at `i`. */
  lemma TreeTextOf(s: string, i: nat, t: Tree)
    requires i + |OperatorText(t.op)| + ArgsLength(t.args) < |s|
    requires s[i..i + |OperatorText(t.op)|] == OperatorText(t.op)
    requires s[i + |OperatorText(t.op)|..i + |OperatorText(t.op)| + ArgsLength(t.args)] == ArgsText(t.args)
    requires s[i + |OperatorText(t.op)| + ArgsLength(t.args)] == ')'
    ensures i + |Text(t)| <= |s| && s[i..i + |Text(t)|] == Text(t)
  {
    var p := i + |OperatorText(t.op)|;
    var e := p + ArgsLength(t.args);
    assert s[e..e + 1] == ")";
    SliceConcat3(s, i, p, e, e + 1, OperatorText(t.op), ArgsText(t.args), ")");
  }

  /** Whatever the matcher finds is a token of the grammar, standing for the instruction it reports. */
  lemma MatchAtSound(s: string, i: nat, m: Match)
    requires i <= |s| && MatchAt(s, i) == Some(m)
    ensures i + m.length <= |s| && Token(s[i..i + m.length], m.instruction)
  {
    var t := TreeAt(s, i).value;
    TreeAtText(s, i, t);
    assert WellFormed(t) && Text(t) == s[i..i + m.length] && Meaning(t) == m.instruction;
  }

  /** Every token of the grammar at `i` is what the matcher finds there, with its full length. */
  lemma MatchAtComplete(s: string, i: nat, j: nat, ins: Instruction)
    requires i <= j <= |s| && Token(s[i..j], ins)
    ensures MatchAt(s, i) == Some(Match(ins, j - i))
  {
    var t :| WellFormed(t) && Text(t) == s[i..j] && Meaning(t) == ins;
    MatchAtOf(s, i, j, t);
  }

  lemma MatchAtOf(s: string, i: nat, j: nat, t: Tree)
    requires WellFormed(t)
    requires i <= j <= |s| && s[i..j] == Text(t)
    ensures MatchAt(s, i) == Some(Match(Meaning(t), j - i))
  {
    TreeAtOf(s, i, t);
  }

  // The scanner: `parseInstruction` and `parseAllInstructions`.

  /** The anchored matches at positions `0` to `n - 1` of `s`. */
  function MatchesTo(s: string, n: nat): (ms: seq<Option<Match>>)
    requires n <= |s| + 1
    ensures |ms| == n
    ensures forall k :: 0 <= k < n && ms[k].Some? ==> 4 <= ms[k].value.length && k + ms[k].value.length <= |s|
  {
    if n == 0 then [] else MatchesTo(s, n - 1) + [MatchAt(s, n - 1)]
  }

  /** The anchored match at every position of `s`, the end position included. */
  function Matches(s: string): (ms: seq<Option<Match>>)
    ensures |ms| == |s| + 1
    ensures forall k :: 0 <= k <= |s| && ms[k].Some? ==> 4 <= ms[k].value.length && k + ms[k].value.length <= |s|
  {
    MatchesTo(s, |s| + 1)
  }

  /** Entry `k` of the anchored matches is the match at `k`. */
  lemma {:induction false} MatchesToAt(s: string, n: nat, k: nat)
    requires k < n <= |s| + 1
    ensures MatchesTo(s, n)[k] == MatchAt(s, k)
  {
    if k < n - 1 {
      MatchesToAt(s, n - 1, k);
    }
  }

  lemma MatchesAt(s: string, k: nat)
    requires k <= |s|
    ensures Matches(s)[k] == MatchAt(s, k)
  {
    MatchesToAt(s, |s| + 1, k);
  }

  /** Positions without an entry are the positions where the regex does not match. */
  lemma MatchesNone(s: string, i: nat)
    requires i <= |s| + 1
    ensures (forall k :: 0 <= k < i ==> Matches(s)[k].None?) <==> (forall k :: 0 <= k < i ==> MatchAt(s, k).None?)
  {
    forall k | 0 <= k < i {
      MatchesAt(s, k);
    }
  }

  /** The first position at or after `i` whose entry holds a value: what `exec` of a global regex does with the anchored matches. */
  function FirstSome<T>(ms: seq<Option<T>>, i: nat): (r: Option<nat>)
    requires i <= |ms|
    ensures r.Some? ==> i <= r.value < |ms| && ms[r.value].Some?
    ensures r.Some? ==> forall k :: i <= k < r.value ==> ms[k].None?
    ensures r.None? ==> forall k :: i <= k < |ms| ==> ms[k].None?
    decreases |ms| - i
  {
    if i == |ms| then None
    else if ms[i].Some? then Some(i)
    else FirstSome(ms, i + 1)
  }

  /** A position holding a value with none before it is the first one. */
  lemma FirstSomeAt<T>(ms: seq<Option<T>>, i: nat)
    requires i < |ms| && ms[i].Some?
    requires forall k :: 0 <= k < i ==> ms[k].None?
    ensures FirstSome(ms, 0) == Some(i)
  {
  }

  /** The first token of the memory, and the memory after it; None when there is no token. */
  function ParseInstruction(programMemory: string): (r: Option<Parsed>)
    ensures r.Some? ==> |r.value.programMemory| + 4 <= |programMemory|
    ensures r.Some? ==> r.value.programMemory == programMemory[|programMemory| - |r.value.programMemory|..]
  {
    var ms := Matches(programMemory);
    match FirstSome(ms, 0)
    case None => None
    case Some(k) => Some(Parsed(ms[k].value.instruction, programMemory[k + ms[k].value.length..]))
  }

  /** No token of the grammar starts before position `i`. */
  ghost predicate NoTokenBefore(s: string, i: nat)
  {
    forall k, l, ins :: 0 <= k < i && k <= l <= |s| ==> !Token(s[k..l], ins)
  }

  lemma NoMatchNoToken(s: string, k: nat)
    requires k <= |s| && MatchAt(s, k).None?
    ensures forall l, ins :: k <= l <= |s| ==> !Token(s[k..l], ins)
  {
    forall l, ins | k <= l <= |s| && Token(s[k..l], ins) ensures false {
      MatchAtComplete(s, k, l, ins);
    }
  }

  lemma NoMatchBefore(s: string, i: nat)
    requires i <= |s| + 1 && forall k :: 0 <= k < i ==> MatchAt(s, k).None?
    ensures NoTokenBefore(s, i)
  {
    forall k, l, ins | 0 <= k < i && k <= l <= |s| ensures !Token(s[k..l], ins) {
      NoMatchNoToken(s, k);
    }
  }

  lemma NoTokenNoMatch(s: string, i: nat)
    requires i <= |s| + 1 && NoTokenBefore(s, i)
    ensures forall k :: 0 <= k < i ==> MatchAt(s, k).None?
  {
    forall k | 0 <= k < i && MatchAt(s, k).Some? ensures false {
      MatchAtSound(s, k, MatchAt(s, k).value);
    }
  }

  /** When the scanner finds nothing, the memory holds no token at all, and conversely. */
  lemma ParseInstructionNone(programMemory: string)
    ensures ParseInstruction(programMemory).None? ==> NoTokenBefore(programMemory, |programMemory| + 1)
    ensures NoTokenBefore(programMemory, |programMemory| + 1) ==> ParseInstruction(programMemory).None?
  {
    var s := programMemory;
    var ms := Matches(s);
    match FirstSome(ms, 0)
    case None =>
      MatchesNone(s, |s| + 1);
      NoMatchBefore(s, |s| + 1);
    case Some(k) =>
      var m := ms[k].value;
      MatchesAt(s, k);
      MatchAtSound(s, k, m);
      assert Token(s[k..k + m.length], m.instruction);
  }

  /** What the scanner returns is the leftmost token, and the memory after it. */
  lemma ParseInstructionSound(programMemory: string)
    requires ParseInstruction(programMemory).Some?
    ensures exists i, j ::
              && 0 <= i <= j <= |programMemory| && NoTokenBefore(programMemory, i)
              && Token(programMemory[i..j], ParseInstruction(programMemory).value.instruction)
              && ParseInstruction(programMemory).value.programMemory == programMemory[j..]
  {
    var s := programMemory;
    var k := FirstSome(Matches(s), 0).value;
    var m := Matches(s)[k].value;
    ParseInstructionAt(s, k, m);
    FirstMatchIsLeftmostToken(s, k, m);
  }

  /** The first position where the regex matches starts the leftmost token. */
  lemma FirstMatchIsLeftmostToken(s: string, k: nat, m: Match)
    requires FirstSome(Matches(s), 0) == Some(k) && Matches(s)[k] == Some(m)
    ensures k + m.length <= |s| && NoTokenBefore(s, k) && Token(s[k..k + m.length], m.instruction)
  {
    MatchesAt(s, k);
    MatchAtSound(s, k, m);
    MatchesNone(s, k);
    NoMatchBefore(s, k);
  }

  /** The scanner's result, given the first position where the regex matches. */
  lemma ParseInstructionAt(s: string, k: nat, m: Match)
    requires FirstSome(Matches(s), 0) == Some(k) && Matches(s)[k] == Some(m)
    ensures k + m.length <= |s|
    ensures ParseInstruction(s) == Some(Parsed(m.instruction, s[k + m.length..]))
  {
  }

  /** A token that no other token precedes is the one the scanner returns. */
  lemma ParseInstructionLeftmost(programMemory: string, i: nat, j: nat, ins: Instruction)
    requires i <= j <= |programMemory| && Token(programMemory[i..j], ins)
    requires NoTokenBefore(programMemory, i)
    ensures ParseInstruction(programMemory) == Some(Parsed(ins, programMemory[j..]))
  {
    var s := programMemory;
    LeftmostTokenIsFirstMatch(s, i, j, ins);
    ParseInstructionAt(s, i, Match(ins, j - i));
  }

  /** A token that no other token precedes starts at the first position where the regex matches. */
  lemma LeftmostTokenIsFirstMatch(s: string, i: nat, j: nat, ins: Instruction)
    requires i <= j <= |s| && Token(s[i..j], ins)
    requires NoTokenBefore(s, i)
    ensures FirstSome(Matches(s), 0) == Some(i) && Matches(s)[i] == Some(Match(ins, j - i))
  {
    MatchAtComplete(s, i, j, ins);
    MatchesAt(s, i);
    NoTokenNoMatch(s, i);
    MatchesNone(s, i);
    FirstSomeAt(Matches(s), i);
  }

  /** `parseAllInstructions`: the instructions of all tokens, scanned left to right, after `instructions`. */
  function ParseAllInstructions(programMemory: string, instructions: seq<Instruction>): (r: seq<Instruction>)
    ensures |instructions| <= |r| && 4 * (|r| - |instructions|) <= |programMemory|
    decreases |programMemory|
  {
    match ParseInstruction(programMemory)
    case None => instructions
    case Some(p) => ParseAllInstructions(p.programMemory, instructions + [p.instruction])
  }

  /** The accumulator is only a prefix: the scan itself does not depend on it. */
  lemma {:induction false} ParseAllAccumulator(programMemory: string, instructions: seq<Instruction>)
    ensures ParseAllInstructions(programMemory, instructions) == instructions + ParseAllInstructions(programMemory, [])
    decreases |programMemory|
  {
    if ParseInstruction(programMemory).None? {
      ParseAllDone(programMemory, instructions);
      ParseAllDone(programMemory, []);
      ConcatEmpty(instructions);
    } else {
      var p := ParseInstruction(programMemory).value;
      var rest := ParseAllInstructions(p.programMemory, []);
      ParseAllStep(programMemory, instructions, p);
      ParseAllStep(programMemory, [], p);
      ParseAllAccumulator(p.programMemory, instructions + [p.instruction]);
      ParseAllAccumulator(p.programMemory, [p.instruction]);
      ConcatAssociative(instructions, [p.instruction], rest);
      assert [] + [p.instruction] == [p.instruction];
    }
  }

  lemma ParseAllDone(programMemory: string, instructions: seq<Instruction>)
    requires ParseInstruction(programMemory).None?
    ensures ParseAllInstructions(programMemory, instructions) == instructions
  {
  }

  lemma ParseAllStep(programMemory: string, instructions: seq<Instruction>, p: Parsed)
    requires ParseInstruction(programMemory) == Some(p)
    ensures ParseAllInstructions(programMemory, instructions) == ParseAllInstructions(p.programMemory, instructions + [p.instruction])
  {
  }

  lemma ConcatAssociative<T>(a: seq<T>, b: seq<T>, c: seq<T>)
    ensures (a + b) + c == a + (b + c)
  {
  }

  lemma ConcatEmpty<T>(a: seq<T>)
    ensures a + [] == a
  {
  }

  /**
   * `ins` are the tokens of `s` scanned left to right without overlap: each is
   * the meaning of the leftmost token of what the previous one left, and no
   * token is left after the last.
   */
  ghost predicate Scan(s: string, ins: seq<Instruction>)
    decreases |ins|
  {
    if ins == [] then NoTokenBefore(s, |s| + 1)
    else exists i, j :: 0 <= i <= j <= |s| && NoTokenBefore(s, i) && Token(s[i..j], ins[0]) && Scan(s[j..], ins[1..])
  }

  lemma ScanNil(s: string)
    requires NoTokenBefore(s, |s| + 1)
    ensures Scan(s, [])
  {
  }

  lemma ScanCons(s: string, i: nat, j: nat, x: Instruction, rest: seq<Instruction>)
    requires i <= j <= |s| && NoTokenBefore(s, i) && Token(s[i..j], x) && Scan(s[j..], rest)
    ensures Scan(s, [x] + rest)
  {
    var ins := [x] + rest;
    assert ins[0] == x && ins[1..] == rest;
  }

  lemma ScanHead(s: string, ins: seq<Instruction>) returns (i: nat, j: nat)
    requires ins != [] && Scan(s, ins)
    ensures i <= j <= |s| && NoTokenBefore(s, i) && Token(s[i..j], ins[0]) && Scan(s[j..], ins[1..])
  {
    i, j :| 0 <= i <= j <= |s| && NoTokenBefore(s, i) && Token(s[i..j], ins[0]) && Scan(s[j..], ins[1..]);
  }

  /** `parseAllInstructions` lists the scanned tokens' meanings. */
  lemma {:induction false} ParseAllScans(programMemory: string)
    ensures Scan(programMemory, ParseAllInstructions(programMemory, []))
    decreases |programMemory|
  {
    var s := programMemory;
    if ParseInstruction(s).None? {
      ParseInstructionNone(s);
      ParseAllDone(s, []);
      ScanNil(s);
    } else {
      var p := ParseInstruction(s).value;
      var i, j := ParseInstructionSoundAt(s);
      ParseAllStep(s, [], p);
      assert [] + [p.instruction] == [p.instruction];
      ParseAllAccumulator(p.programMemory, [p.instruction]);
      ParseAllScans(p.programMemory);
      ScanCons(s, i, j, p.instruction, ParseAllInstructions(p.programMemory, []));
    }
  }

  /** The leftmost token behind the scanner's result, as positions. */
  lemma ParseInstructionSoundAt(s: string) returns (i: nat, j: nat)
    requires ParseInstruction(s).Some?
    ensures i <= j <= |s| && NoTokenBefore(s, i)
    ensures Token(s[i..j], ParseInstruction(s).value.instruction) && ParseInstruction(s).value.programMemory == s[j..]
  {
    var k := FirstSome(Matches(s), 0).value;
    var m := Matches(s)[k].value;
    ParseInstructionAt(s, k, m);
    FirstMatchIsLeftmostToken(s, k, m);
    i, j := k, k + m.length;
  }

  /** The scan is unique: any left-to-right scan of the tokens is what `parseAllInstructions` returns. */
  lemma {:induction false} ScanIsParseAll(programMemory: string, ins: seq<Instruction>)
    requires Scan(programMemory, ins)
    ensures ins == ParseAllInstructions(programMemory, [])
    decreases |ins|
  {
    var s := programMemory;
    if ins == [] {
      ParseInstructionNone(s);
      ParseAllDone(s, []);
    } else {
      var i, j := ScanHead(s, ins);
      ParseInstructionLeftmost(s, i, j, ins[0]);
      ScanIsParseAll(s[j..], ins[1..]);
      ParseAllStep(s, [], Parsed(ins[0], s[j..]));
      assert [] + [ins[0]] == [ins[0]];
      ParseAllAccumulator(s[j..], [ins[0]]);
      assert ins == [ins[0]] + ins[1..];
    }
  }

  /** Every product the scanner produces has operands of at most three digits. */
  lemma {:induction false} ParseAllOperands(programMemory: string, instructions: seq<Instruction>)
    requires forall k :: 0 <= k < |instructions| && instructions[k].Mul? ==> 0 <= instructions[k].lhs <= 999 && 0 <= instructions[k].rhs <= 999
    ensures forall k :: 0 <= k < |ParseAllInstructions(programMemory, instructions)| && ParseAllInstructions(programMemory, instructions)[k].Mul? ==>
      0 <= ParseAllInstructions(programMemory, instructions)[k].lhs <= 999 && 0 <= ParseAllInstructions(programMemory, instructions)[k].rhs <= 999
    decreases |programMemory|
  {
    match ParseInstruction(programMemory)
    case None =>
    case Some(p) =>
      InstructionOperands(programMemory);
      ParseAllOperands(p.programMemory, instructions + [p.instruction]);
  }

  /** The operands of a `mul` the scanner returns are at most 999. */
  lemma InstructionOperands(programMemory: string)
    requires ParseInstruction(programMemory).Some?
    ensures ParseInstruction(programMemory).value.instruction.Mul? ==>
      0 <= ParseInstruction(programMemory).value.instruction.lhs <= 999 && 0 <= ParseInstruction(programMemory).value.instruction.rhs <= 999
  {
    var s := programMemory;
    var k := FirstSome(Matches(s), 0).value;
    MatchesAt(s, k);
    var t := TreeAt(s, k).value;
    if t.args.Pair? {
      ValueBound(t.args.first);
      ValueBound(t.args.second);
    }
  }


  // `sumInstructions`: a left fold over the instructions.

  /** The running sum as a JavaScript number: an integer, or NaN once a `mul()` has been added. */
  datatype Total = Num(n: int) | NaN

  /** The fold state: the running sum and whether multiplications are enabled. */
  datatype State = State(sum: Total, active: bool)

  function Plus(t: Total, x: int): Total
  {
    match t
    case Num(n) => Num(n + x)
    case NaN => NaN
  }

  /** One instruction: an enabled `mul` adds its product (`mul()` adds NaN); `do`/`don't` switch. */
  function Step(st: State, ins: Instruction): State
  {
    match ins
    case Mul(lhs, rhs) => State(if st.active then Plus(st.sum, lhs * rhs) else st.sum, st.active)
    case MulNoArgs => State(if st.active then NaN else st.sum, st.active)
    case Do => State(st.sum, true)
    case Dont => State(st.sum, false)
  }

  /** The reduction from `{ sum: 0, active: true }`, one instruction after another. */
  function Run(instructions: seq<Instruction>): State
  {
    if instructions == [] then State(Num(0), true)
    else Step(Run(instructions[..|instructions| - 1]), instructions[|instructions| - 1])
  }

  function SumInstructions(instructions: seq<Instruction>): Total
  {
    Run(instructions).sum
  }

  // The reference: which multiplications count, stated without the fold.

  /** The instruction at `k` is enabled: every `don't()` before it is followed by a `do()` before it. */
  ghost predicate Enabled(instructions: seq<Instruction>, k: nat)
    requires k <= |instructions|
  {
    forall j :: 0 <= j < k && instructions[j] == Dont ==> exists l :: j < l < k && instructions[l] == Do
  }

  /** The products of the enabled multiplications, 0 for every other instruction. */
  ghost function EnabledProducts(instructions: seq<Instruction>): (ps: seq<int>)
    ensures |ps| == |instructions|
  {
    seq(|instructions|, k requires 0 <= k < |instructions| =>
      if instructions[k].Mul? && Enabled(instructions, k) then instructions[k].lhs * instructions[k].rhs else 0)
  }

  /** Some enabled `mul()` makes the whole sum NaN. */
  ghost predicate EnabledNaN(instructions: seq<Instruction>)
  {
    exists k :: 0 <= k < |instructions| && instructions[k] == MulNoArgs && Enabled(instructions, k)
  }

  lemma EnabledPrefix(instructions: seq<Instruction>, n: nat, k: nat)
    requires k <= n <= |instructions|
    ensures Enabled(instructions[..n], k) == Enabled(instructions, k)
  {
    var p := instructions[..n];
    assert forall j :: 0 <= j < k ==> p[j] == instructions[j];
  }

  lemma EnabledStep(instructions: seq<Instruction>, k: nat)
    requires k < |instructions|
    ensures instructions[k] == Do ==> Enabled(instructions, k + 1)
    ensures instructions[k] == Dont ==> !Enabled(instructions, k + 1)
    ensures instructions[k] != Do && instructions[k] != Dont ==> Enabled(instructions, k + 1) == Enabled(instructions, k)
  {
    var s := instructions;
    if s[k] == Do {
      forall j | 0 <= j < k + 1 && s[j] == Dont ensures exists l :: j < l < k + 1 && s[l] == Do {
        assert j < k && s[k] == Do;
      }
    } else if s[k] != Dont {
      if Enabled(s, k) {
        forall j | 0 <= j < k + 1 && s[j] == Dont ensures exists l :: j < l < k + 1 && s[l] == Do {
          var l :| j < l < k && s[l] == Do;
        }
      }
      if Enabled(s, k + 1) {
        forall j | 0 <= j < k && s[j] == Dont ensures exists l :: j < l < k && s[l] == Do {
          var l :| j < l < k + 1 && s[l] == Do;
          assert l != k;
        }
      }
    }
  }

  lemma EnabledProductsSnoc(instructions: seq<Instruction>)
    requires instructions != []
    ensures EnabledProducts(instructions) == EnabledProducts(instructions[..|instructions| - 1]) + [EnabledProducts(instructions)[|instructions| - 1]]
  {
    var n := |instructions| - 1;
    var p := instructions[..n];
    forall k | 0 <= k < n ensures EnabledProducts(instructions)[k] == EnabledProducts(p)[k] {
      EnabledPrefix(instructions, n, k);
    }
  }

  lemma EnabledNaNSnoc(instructions: seq<Instruction>)
    requires instructions != []
    ensures EnabledNaN(instructions) == (EnabledNaN(instructions[..|instructions| - 1])
      || (instructions[|instructions| - 1] == MulNoArgs && Enabled(instructions, |instructions| - 1)))
  {
    var n := |instructions| - 1;
    var p := instructions[..n];
    if EnabledNaN(p) {
      var k :| 0 <= k < n && p[k] == MulNoArgs && Enabled(p, k);
      EnabledPrefix(instructions, n, k);
    }
    if EnabledNaN(instructions) {
      var k :| 0 <= k < |instructions| && instructions[k] == MulNoArgs && Enabled(instructions, k);
      if k < n {
        EnabledPrefix(instructions, n, k);
        assert p[k] == MulNoArgs && Enabled(p, k);
      }
    }
  }

  /** The fold computes the reference: NaN when an enabled `mul()` occurs, else the sum of the enabled products. */
  lemma {:induction false} RunIsEnabledSum(instructions: seq<Instruction>)
    ensures Run(instructions).active == Enabled(instructions, |instructions|)
    ensures Run(instructions).sum == if EnabledNaN(instructions) then NaN else Num(Sum(EnabledProducts(instructions)))
    decreases |instructions|
  {
    var s := instructions;
    if s != [] {
      var n := |s| - 1;
      var p := s[..n];
      RunIsEnabledSum(p);
      EnabledPrefix(s, n, n);
      EnabledStep(s, n);
      EnabledProductsSnoc(s);
      EnabledNaNSnoc(s);
      SumConcat(EnabledProducts(p), [EnabledProducts(s)[n]]);
      assert Sum([EnabledProducts(s)[n]]) == EnabledProducts(s)[n];
    } else {
      assert EnabledProducts(s) == [];
    }
  }

  lemma SumInstructionsIsEnabledSum(instructions: seq<Instruction>)
    ensures SumInstructions(instructions) == if EnabledNaN(instructions) then NaN else Num(Sum(EnabledProducts(instructions)))
  {
    RunIsEnabledSum(instructions);
  }

  /** Without `don't()` every multiplication counts: the sum of all products. */
  lemma SumWithoutDont(instructions: seq<Instruction>)
    requires forall k :: 0 <= k < |instructions| ==> instructions[k] != Dont && instructions[k] != MulNoArgs
    ensures SumInstructions(instructions) == Num(Sum(seq(|instructions|, k requires 0 <= k < |instructions| =>
      if instructions[k].Mul? then instructions[k].lhs * instructions[k].rhs else 0)))
  {
    SumInstructionsIsEnabledSum(instructions);
    forall k | 0 <= k <= |instructions| ensures Enabled(instructions, k) {
    }
    assert EnabledProducts(instructions) == seq(|instructions|, k requires 0 <= k < |instructions| =>
      if instructions[k].Mul? then instructions[k].lhs * instructions[k].rhs else 0);
    assert !EnabledNaN(instructions);
  }

  /** After a `don't()`, nothing is added until the next `do()`, and the gate stays closed. */
  lemma {:induction false} RunDisabled(a: seq<Instruction>, b: seq<Instruction>)
    requires forall k :: 0 <= k < |b| ==> b[k] != Do
    ensures Run(a + [Dont] + b) == State(Run(a).sum, false)
    decreases |b|
  {
    var s := a + [Dont] + b;
    if b == [] {
      assert s[..|s| - 1] == a;
    } else {
      var b' := b[..|b| - 1];
      assert s[..|s| - 1] == a + [Dont] + b';
      RunDisabled(a, b');
    }
  }

  lemma SumDisabled(a: seq<Instruction>, b: seq<Instruction>)
    requires forall k :: 0 <= k < |b| ==> b[k] != Do
    ensures SumInstructions(a + [Dont] + b) == SumInstructions(a)
  {
    RunDisabled(a, b);
  }

  /** The instruction list of the sum example, whose enabled products are 4*2 and 5*8. */
  lemma SampleSum(instructions: seq<Instruction>)
    requires instructions == [Mul(4, 2), Dont, Mul(5, 5), Mul(8, 11), Do, Mul(5, 8)]
    ensures SumInstructions(instructions) == Num(48)
  {
    var s := instructions;
    assert s[..1][..0] == [];
    assert Run(s[..1]) == State(Num(8), true);
    assert s[..2][..1] == s[..1];
    assert Run(s[..2]) == State(Num(8), false);
    assert s[..3][..2] == s[..2];
    assert Run(s[..3]) == State(Num(8), false);
    assert s[..4][..3] == s[..3];
    assert Run(s[..4]) == State(Num(8), false);
    assert s[..5][..4] == s[..4];
    assert Run(s[..5]) == State(Num(8), true);
    assert s[..|s| - 1] == s[..5];
  }
}
