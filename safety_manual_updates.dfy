/**
 * Day 5: the safety manual updates.
 *
 * A rule `X|Y` says that page X must be printed before page Y.  The rules are
 * grouped into page orders: each page mapped to the pages that must come after
 * it.  An update is a list of pages; its audit lists, for every page, the pages
 * already printed (up to and including itself) that should have come after it,
 * and offers a corrected order.
 */
module SafetyManualUpdates {
  import opened Wrappers
  import Seqs
  import Sorting
  import Counting

  /** The pages each page must precede, rule by rule. */
  type PageOrders = map<int, seq<int>>

  // ---------------------------------------------------------------------------
  // Reading the file's lines

  /** The characters JavaScript's `\s` matches, which lodash `trim` strips. */
  predicate IsSpace(c: char)
  {
    c == ' ' || c == '\t' || c == '\n' || c == '\U{000B}' || c == '\U{000C}' || c == '\r' ||
    c == '\U{00A0}' || c == '\U{1680}' || ('\U{2000}' <= c <= '\U{200A}') ||
    c == '\U{2028}' || c == '\U{2029}' || c == '\U{202F}' || c == '\U{205F}' ||
    c == '\U{3000}' || c == '\U{FEFF}'
  }

  /** Where the text of `s[..n]` ends once its trailing whitespace is cut. */
  function TrimmedEnd(s: string, n: nat): (e: nat)
    requires n <= |s|
    ensures e <= n
    ensures e == 0 || !IsSpace(s[e - 1])
    ensures forall k :: e <= k < n ==> IsSpace(s[k])
  {
    if n > 0 && IsSpace(s[n - 1]) then TrimmedEnd(s, n - 1) else n
  }

  /** Where the text of `s[i..n]` starts once its leading whitespace is cut. */
  function TrimmedStart(s: string, i: nat, n: nat): (b: nat)
    requires i <= n <= |s|
    ensures i <= b <= n
    ensures b == n || !IsSpace(s[b])
    ensures forall k :: i <= k < b ==> IsSpace(s[k])
    decreases n - i
  {
    if i < n && IsSpace(s[i]) then TrimmedStart(s, i + 1, n) else i
  }

  /** The end of the text lodash `trim` keeps. */
  function KeptTo(s: string): nat
  {
    TrimmedEnd(s, |s|)
  }

  /** The start of the text lodash `trim` keeps. */
  function KeptFrom(s: string): nat
  {
    TrimmedStart(s, 0, KeptTo(s))
  }

  /**
   * lodash `trim`: the trailing whitespace is cut first, then the leading
   * whitespace of what is left.
   */
  function Trim(s: string): string
  {
    s[KeptFrom(s)..KeptTo(s)]
  }

  /** What `Trim` keeps neither starts nor ends with whitespace. */
  lemma TrimEnds(s: string)
    ensures Trim(s) == [] || (!IsSpace(Trim(s)[0]) && !IsSpace(Trim(s)[|Trim(s)| - 1]))
  {
  }

  /** What `Trim` drops before and after the kept slice is whitespace. */
  lemma TrimDropsSpace(s: string)
    ensures KeptFrom(s) <= KeptTo(s) <= |s|
    ensures forall k :: 0 <= k < |s| && (k < KeptFrom(s) || KeptTo(s) <= k) ==> IsSpace(s[k])
  {
  }

  /** The file's lines, each trimmed. */
  function Lines(text: string): (lines: seq<string>)
    ensures |lines| == |Seqs.Split(text, '\n')|
    ensures forall k :: 0 <= k < |lines| ==> lines[k] == Trim(Seqs.Split(text, '\n')[k])
  {
    var parts := Seqs.Split(text, '\n');
    seq(|parts|, k requires 0 <= k < |parts| => Trim(parts[k]))
  }

  /** Every line is trimmed: it holds no line break, and neither starts nor ends with whitespace. */
  lemma LinesTrimmed(text: string)
    ensures forall k :: 0 <= k < |Lines(text)| ==> '\n' !in Lines(text)[k]
    ensures forall k :: 0 <= k < |Lines(text)| ==>
      Lines(text)[k] == [] || (!IsSpace(Lines(text)[k][0]) && !IsSpace(Lines(text)[k][|Lines(text)[k]| - 1]))
  {
    var parts := Seqs.Split(text, '\n');
    forall k | 0 <= k < |parts|
      ensures '\n' !in Trim(parts[k])
      ensures Trim(parts[k]) == [] || (!IsSpace(Trim(parts[k])[0]) && !IsSpace(Trim(parts[k])[|Trim(parts[k])| - 1]))
    {
      TrimEnds(parts[k]);
      SliceKeeps(parts[k], KeptFrom(parts[k]), KeptTo(parts[k]), '\n');
    }
  }

  /** A slice holds nothing its sequence does not. */
  lemma SliceKeeps(s: string, i: nat, j: nat, x: char)
    requires i <= j <= |s| && x !in s
    ensures x !in s[i..j]
  {
  }

  /** The rule lines: the lines before the first empty one. */
  function RuleLines(lines: seq<string>): (rules: seq<string>)
    ensures |rules| <= |lines| && rules == lines[..|rules|]
    ensures forall k :: 0 <= k < |rules| ==> rules[k] != ""
    ensures |rules| == |lines| || lines[|rules|] == ""
  {
    if lines == [] || lines[0] == "" then [] else [lines[0]] + RuleLines(lines[1..])
  }

  /** The lines from the first empty one on. */
  function AfterRules(lines: seq<string>): (rest: seq<string>)
  {
    if lines == [] || lines[0] == "" then lines else AfterRules(lines[1..])
  }

  /** The lines that are not empty, in order. */
  function NonEmpty(lines: seq<string>): (kept: seq<string>)
    ensures forall k :: 0 <= k < |kept| ==> kept[k] != ""
    ensures forall l :: l in kept <==> l in lines && l != ""
  {
    if lines == [] then []
    else (if lines[0] != "" then [lines[0]] else []) + NonEmpty(lines[1..])
  }

  /** The update lines: the non-empty lines after the rules. */
  function UpdateLines(lines: seq<string>): (updates: seq<string>)
  {
    NonEmpty(AfterRules(lines))
  }

  /** The rule lines and what follows them make up the file. */
  lemma {:induction false} RuleLinesSplit(lines: seq<string>)
    ensures RuleLines(lines) + AfterRules(lines) == lines
  {
    if lines != [] && lines[0] != "" {
      RuleLinesSplit(lines[1..]);
      assert [lines[0]] + (RuleLines(lines[1..]) + AfterRules(lines[1..])) == lines;
    }
  }

  /** Every non-empty line is either a rule line or an update line. */
  lemma UpdateLinesCover(lines: seq<string>, l: string)
    requires l in lines && l != ""
    ensures l in RuleLines(lines) || l in UpdateLines(lines)
  {
    RuleLinesSplit(lines);
    assert l in RuleLines(lines) + AfterRules(lines);
  }

  /** The pages that the rules put after `a`, rule by rule. */
  function SuccessorsIn(rules: seq<(int, int)>, a: int): seq<int>
  {
    if rules == [] then []
    else (if rules[0].0 == a then [rules[0].1] else []) + SuccessorsIn(rules[1..], a)
  }

  /** `groupBy(first)` then `mapValues(map(last))`: the page orders the rules give. */
  function GroupRules(rules: seq<(int, int)>): (orders: PageOrders)
    ensures forall a :: a in orders ==> orders[a] != []
  {
    if rules == [] then map[]
    else
      var orders := GroupRules(rules[..|rules| - 1]);
      var (a, b) := rules[|rules| - 1];
      orders[a := Counting.Lookup(orders, a, []) + [b]]
  }

  lemma {:induction false} SuccessorsInSnoc(rules: seq<(int, int)>, r: (int, int), a: int)
    ensures SuccessorsIn(rules + [r], a) == SuccessorsIn(rules, a) + (if r.0 == a then [r.1] else [])
  {
    if rules == [] {
      assert rules + [r] == [r];
    } else {
      var head := if rules[0].0 == a then [rules[0].1] else [];
      assert (rules + [r])[0] == rules[0];
      assert (rules + [r])[1..] == rules[1..] + [r];
      assert SuccessorsIn(rules + [r], a) == head + SuccessorsIn(rules[1..] + [r], a);
      SuccessorsInSnoc(rules[1..], r, a);
      assert SuccessorsIn(rules, a) == head + SuccessorsIn(rules[1..], a);
    }
  }

  /** Each page is mapped to the pages that its rules put after it, in rule order. */
  lemma {:induction false} GroupRulesSuccessors(rules: seq<(int, int)>, a: int)
    ensures Counting.Lookup(GroupRules(rules), a, []) == SuccessorsIn(rules, a)
  {
    if rules != [] {
      var init := rules[..|rules| - 1];
      GroupRulesSuccessors(init, a);
      assert rules == init + [rules[|rules| - 1]];
      SuccessorsInSnoc(init, rules[|rules| - 1], a);
    }
  }

  // ---------------------------------------------------------------------------
  // Auditing an update

  /** `_.get(pageOrders, page, [])`. */
  function Successors(orders: PageOrders, page: int): seq<int>
  {
    Counting.Lookup(orders, page, [])
  }

  /** The elements of `xs` that occur in `ys`, in order. */
  function InList(xs: seq<int>, ys: seq<int>): seq<int>
  {
    if xs == [] then []
    else (if xs[0] in ys then [xs[0]] else []) + InList(xs[1..], ys)
  }

  /** The filtered list holds exactly the elements of `xs` that occur in `ys`. */
  lemma {:induction false} InListMembers(xs: seq<int>, ys: seq<int>)
    ensures forall x :: x in InList(xs, ys) <==> x in xs && x in ys
  {
    if xs != [] {
      InListMembers(xs[1..], ys);
      assert xs == [xs[0]] + xs[1..];
    }
  }

  /** lodash `intersection(xs, ys)`: the distinct elements of `xs` that occur in `ys`, in first-occurrence order. */
  function Intersection(xs: seq<int>, ys: seq<int>): (r: seq<int>)
  {
    Seqs.Dedup(InList(xs, ys))
  }

  /** The intersection holds the common elements, each once. */
  lemma IntersectionMembers(xs: seq<int>, ys: seq<int>)
    ensures forall x :: x in Intersection(xs, ys) <==> x in xs && x in ys
    ensures var r := Intersection(xs, ys); forall i, j :: 0 <= i < j < |r| ==> r[i] != r[j]
  {
    InListMembers(xs, ys);
  }

  lemma {:induction false} InListSubsequence(xs: seq<int>, ys: seq<int>)
    ensures Seqs.Subsequence(InList(xs, ys), xs)
  {
    if xs != [] {
      InListSubsequence(xs[1..], ys);
      if xs[0] in ys {
        assert ([xs[0]] + InList(xs[1..], ys))[1..] == InList(xs[1..], ys);
      } else {
        assert InList(xs, ys) == InList(xs[1..], ys);
        Seqs.SubsequenceSkip(InList(xs, ys), xs);
      }
    }
  }

  /** An intersection keeps the order in which the first list has its elements. */
  lemma IntersectionSubsequence(xs: seq<int>, ys: seq<int>)
    ensures Seqs.Subsequence(Intersection(xs, ys), xs)
  {
    Seqs.DedupSubsequence(InList(xs, ys));
    InListSubsequence(xs, ys);
    Seqs.SubsequenceTransitive(Intersection(xs, ys), InList(xs, ys), xs);
  }

  /** Filtering keeps the order of first occurrences. */
  lemma {:induction false} InListFirstIndex(xs: seq<int>, ys: seq<int>, x: int, y: int)
    requires x in InList(xs, ys) && y in InList(xs, ys)
    requires Seqs.FirstIndex(InList(xs, ys), x) < Seqs.FirstIndex(InList(xs, ys), y)
    ensures x in xs && y in xs && Seqs.FirstIndex(xs, x) < Seqs.FirstIndex(xs, y)
  {
    InListMembers(xs, ys);
    var t := InList(xs[1..], ys);
    InListMembers(xs[1..], ys);
    if xs[0] in ys {
      assert InList(xs, ys) == [xs[0]] + t;
      if xs[0] != x {
        assert xs[0] != y;
        assert ([xs[0]] + t)[1..] == t;
        InListFirstIndex(xs[1..], ys, x, y);
      }
    } else {
      assert InList(xs, ys) == t;
      InListFirstIndex(xs[1..], ys, x, y);
    }
  }

  /**
   * lodash `intersection` lists the common elements in the order of their
   * first occurrences in the first list.
   */
  lemma IntersectionFirstOrder(xs: seq<int>, ys: seq<int>)
    ensures Seqs.FirstOrdered(Intersection(xs, ys), xs)
  {
    var r := Intersection(xs, ys);
    forall i, j | 0 <= i < j < |r|
      ensures Seqs.FirstBefore(xs, r[i], r[j])
    {
      IntersectionPair(xs, ys, i, j);
    }
  }

  lemma IntersectionPair(xs: seq<int>, ys: seq<int>, i: nat, j: nat)
    requires i < j < |Intersection(xs, ys)|
    ensures Seqs.FirstBefore(xs, Intersection(xs, ys)[i], Intersection(xs, ys)[j])
  {
    var f := InList(xs, ys);
    var r := Intersection(xs, ys);
    Seqs.DedupFirstOrder(f);
    Seqs.FirstOrderedAt(r, f, i, j);
    InListFirstIndex(xs, ys, r[i], r[j]);
  }

  /**
   * The violations at index `i`: the pages printed so far, the page itself
   * included, that the orders put after the page at `i`.
   */
  function Violations(orders: PageOrders, update: seq<int>, i: nat): (v: seq<int>)
    requires i < |update|
  {
    Intersection(update[..i + 1], Successors(orders, update[i]))
  }

  /** The violations at `i` are the pages at or before `i` that the orders put after the page at `i`, each once. */
  lemma ViolationsMembers(orders: PageOrders, update: seq<int>, i: nat)
    requires i < |update|
    ensures forall x :: x in Violations(orders, update, i) <==>
      x in update[..i + 1] && x in Successors(orders, update[i])
    ensures var v := Violations(orders, update, i); forall a, b :: 0 <= a < b < |v| ==> v[a] != v[b]
  {
    IntersectionMembers(update[..i + 1], Successors(orders, update[i]));
  }

  /** `fromPairs` over the first `n` pages and their violations: a later page overwrites an earlier equal one. */
  function AllViolations(orders: PageOrders, update: seq<int>, n: nat): (m: map<int, seq<int>>)
    requires n <= |update|
    ensures forall p :: p in m <==> p in update[..n]
  {
    if n == 0 then map[]
    else
      var m := AllViolations(orders, update, n - 1);
      assert update[..n] == update[..n - 1] + [update[n - 1]];
      m[update[n - 1] := Violations(orders, update, n - 1)]
  }

  /** The audit's `errors`: every page whose violation list is not empty. */
  function Errors(orders: PageOrders, update: seq<int>): (errors: map<int, seq<int>>)
    ensures forall p :: p in errors ==> p in update && |errors[p]| > 0
  {
    var all := AllViolations(orders, update, |update|);
    assert update[..|update|] == update;
    map p | p in all && |all[p]| > 0 :: all[p]
  }

  /** The audit's `isOk`. */
  predicate IsOk(orders: PageOrders, update: seq<int>)
  {
    Errors(orders, update) == map[]
  }

  /** A page that the orders put after one printed at or before it. */
  ghost predicate OutOfOrder(orders: PageOrders, update: seq<int>)
  {
    exists i, j :: 0 <= j <= i < |update| && update[j] in Successors(orders, update[i])
  }

  /** The value `errors` holds for the page at `i` when no later index holds the same page. */
  lemma {:induction false} AllViolationsLast(orders: PageOrders, update: seq<int>, n: nat, i: nat)
    requires i < n <= |update|
    requires forall k :: i < k < n ==> update[k] != update[i]
    ensures AllViolations(orders, update, n)[update[i]] == Violations(orders, update, i)
  {
    AllViolationsStep(orders, update, n);
    if i < n - 1 {
      var m := AllViolations(orders, update, n - 1);
      AllViolationsLast(orders, update, n - 1, i);
      assert update[..n - 1][i] == update[i];
      UpdateKeeps(m, update[n - 1], Violations(orders, update, n - 1), update[i]);
    }
  }

  /** `fromPairs` over `n` pages adds the page at `n - 1` to what the first `n - 1` give. */
  lemma AllViolationsStep(orders: PageOrders, update: seq<int>, n: nat)
    requires 0 < n <= |update|
    ensures AllViolations(orders, update, n) == AllViolations(orders, update, n - 1)[update[n - 1] := Violations(orders, update, n - 1)]
  {
  }

  lemma UpdateKeeps(m: map<int, seq<int>>, k: int, v: seq<int>, p: int)
    requires p != k && p in m
    ensures m[k := v][p] == m[p]
  {
  }

  /** Each page's last violation list is what `errors` holds for it, when it is not empty. */
  lemma ErrorsAtLast(orders: PageOrders, update: seq<int>, i: nat)
    requires i < |update|
    requires forall k :: i < k < |update| ==> update[k] != update[i]
    ensures update[i] in Errors(orders, update) <==> |Violations(orders, update, i)| > 0
    ensures update[i] in Errors(orders, update) ==> Errors(orders, update)[update[i]] == Violations(orders, update, i)
  {
    AllViolationsLast(orders, update, |update|, i);
  }

  /** Adding the page at `n - 1` leaves the other pages' lists alone. */
  lemma AllViolationsOther(orders: PageOrders, update: seq<int>, n: nat, p: int)
    requires 0 < n <= |update| && p != update[n - 1]
    requires p in AllViolations(orders, update, n - 1)
    ensures p in AllViolations(orders, update, n)
    ensures AllViolations(orders, update, n)[p] == AllViolations(orders, update, n - 1)[p]
  {
  }

  /** A violation at `i` makes some index with the same page non-empty in `fromPairs`. */
  lemma {:induction false} AllViolationsNonEmpty(orders: PageOrders, update: seq<int>, n: nat, i: nat, j: nat)
    requires j <= i < n <= |update|
    requires update[j] in Successors(orders, update[i])
    ensures update[i] in AllViolations(orders, update, n)
    ensures |AllViolations(orders, update, n)[update[i]]| > 0
  {
    if update[n - 1] == update[i] {
      AllViolationsNonEmptyAtLast(orders, update, n, j);
    } else {
      AllViolationsNonEmpty(orders, update, n - 1, i, j);
      AllViolationsOther(orders, update, n, update[i]);
    }
  }

  lemma AllViolationsNonEmptyAtLast(orders: PageOrders, update: seq<int>, n: nat, j: nat)
    requires j < n <= |update|
    requires update[j] in Successors(orders, update[n - 1])
    ensures update[n - 1] in AllViolations(orders, update, n)
    ensures |AllViolations(orders, update, n)[update[n - 1]]| > 0
  {
    ViolationsHas(orders, update, n - 1, j);
  }

  /** A page at or before `n` that the orders put after the page at `n` is one of its violations. */
  lemma ViolationsHas(orders: PageOrders, update: seq<int>, n: nat, j: nat)
    requires j <= n < |update|
    requires update[j] in Successors(orders, update[n])
    ensures update[j] in Violations(orders, update, n)
  {
    var x := update[j];
    assert x in update[..n + 1];
    ViolationsMembers(orders, update, n);
    assert x in Violations(orders, update, n) <==> x in update[..n + 1] && x in Successors(orders, update[n]);
  }

  /** With no violation at `i`, its violation list is empty. */
  lemma ViolationsEmpty(orders: PageOrders, update: seq<int>, i: nat)
    requires i < |update|
    requires forall j :: 0 <= j <= i ==> update[j] !in Successors(orders, update[i])
    ensures Violations(orders, update, i) == []
  {
    ViolationsMembers(orders, update, i);
    var v := Violations(orders, update, i);
    forall x
      ensures x !in v
    {
      assert x in v <==> x in update[..i + 1] && x in Successors(orders, update[i]);
    }
  }

  lemma {:induction false} AllViolationsEmpty(orders: PageOrders, update: seq<int>, n: nat)
    requires n <= |update|
    requires !OutOfOrder(orders, update)
    ensures forall p :: p in AllViolations(orders, update, n) ==> AllViolations(orders, update, n)[p] == []
  {
    if n > 0 {
      AllViolationsEmpty(orders, update, n - 1);
      ViolationsEmpty(orders, update, n - 1);
    }
  }

  /** An update is ok exactly when no page the orders put after a page is printed at or before it. */
  lemma IsOkCorrect(orders: PageOrders, update: seq<int>)
    ensures IsOk(orders, update) <==> !OutOfOrder(orders, update)
  {
    if OutOfOrder(orders, update) {
      var i, j :| 0 <= j <= i < |update| && update[j] in Successors(orders, update[i]);
      AllViolationsNonEmpty(orders, update, |update|, i, j);
      assert update[i] in Errors(orders, update);
    } else {
      AllViolationsEmpty(orders, update, |update|);
    }
  }

  /** How many distinct pages of the update the orders put after `page`. */
  function SuccessorCount(orders: PageOrders, update: seq<int>, page: int): nat
  {
    |Intersection(Successors(orders, page), update)|
  }

  /** The sort key of `orderBy(size, 'desc')`: the negated successor count. */
  function Rank(orders: PageOrders, update: seq<int>): (int -> int)
  {
    page => 0 - SuccessorCount(orders, update, page) as int
  }

  /**
   * The audit's `correctPageUpdates`: the update's pages by non-increasing
   * successor count; pages with equal counts keep their order in the update.
   */
  function CorrectPageUpdates(orders: PageOrders, update: seq<int>): (corrected: seq<int>)
    ensures |corrected| == |update|
    ensures multiset(corrected) == multiset(update)
    ensures forall i, j :: 0 <= i < j < |corrected| ==>
      SuccessorCount(orders, update, corrected[i]) >= SuccessorCount(orders, update, corrected[j])
    ensures forall n ::
      Sorting.KeyFilter(corrected, Rank(orders, update), n) == Sorting.KeyFilter(update, Rank(orders, update), n)
  {
    var r := Sorting.SortBy(update, Rank(orders, update));
    assert forall i, j :: 0 <= i < j < |r| ==> Rank(orders, update)(r[i]) <= Rank(orders, update)(r[j]);
    r
  }

  /** The audit of one update. */
  datatype Audit = Audit(isOk: bool, correctPageUpdates: seq<int>, errors: map<int, seq<int>>)

  function AuditUpdate(orders: PageOrders, update: seq<int>): (audit: Audit)
    ensures audit.isOk <==> audit.errors == map[]
  {
    Audit(IsOk(orders, update), CorrectPageUpdates(orders, update), Errors(orders, update))
  }

  // ---------------------------------------------------------------------------
  // Checksums

  /** `pageUpdates[floor(length / 2)]`, which is `undefined` for an empty update. */
  function MiddlePage(update: seq<int>): (middle: Option<int>)
    ensures middle.Some? <==> update != []
  {
    if update == [] then None else Some(update[|update| / 2])
  }

  /**
   * The middle page splits the update into halves: as many pages after it as
   * before it, or one fewer when the length is even.
   */
  lemma MiddlePageBalanced(update: seq<int>)
    requires update != []
    ensures exists m ::
      0 <= m < |update| && MiddlePage(update) == Some(update[m]) &&
      |update[m + 1..]| <= |update[..m]| <= |update[m + 1..]| + 1
  {
    var m := |update| / 2;
    assert MiddlePage(update) == Some(update[m]);
  }

  /** The middle pages of three sample updates. */
  lemma SampleMiddlePages(a: seq<int>, b: seq<int>, c: seq<int>)
    requires a == [75, 47, 61, 53, 29] && b == [97, 61, 53, 29, 13] && c == [75, 29, 13]
    ensures MiddlePage(a) == Some(61) && MiddlePage(b) == Some(53) && MiddlePage(c) == Some(29)
  {
  }

  /**
   * lodash `sum`: 0 for an empty list, and otherwise `baseSum`, which starts
   * from `undefined` and adds each entry that is not `undefined`. A non-empty
   * list whose entries are all `undefined` therefore sums to `undefined`.
   */
  function Sum(xs: seq<Option<int>>): Option<int>
  {
    if xs == [] then Some(0) else BaseSum(None, xs)
  }

  /** lodash `baseSum`, carrying its running `result`. */
  function BaseSum(result: Option<int>, xs: seq<Option<int>>): Option<int>
    decreases |xs|
  {
    if xs == [] then result else BaseSum(AddDefined(result, xs[0]), xs[1..])
  }

  /**
   * One step of `baseSum`: an `undefined` entry is skipped, the first defined
   * one replaces the `undefined` result, and later ones are added to it.
   */
  function AddDefined(result: Option<int>, current: Option<int>): Option<int>
  {
    if current.None? then result
    else if result.None? then current
    else Some(result.value + current.value)
  }

  /** The total of the entries that are defined. */
  function PresentTotal(xs: seq<Option<int>>): int
  {
    if xs == [] then 0
    else (if xs[0].Some? then xs[0].value else 0) + PresentTotal(xs[1..])
  }

  /** Every entry is `undefined`. */
  predicate AllUndefined(xs: seq<Option<int>>)
  {
    forall k :: 0 <= k < |xs| ==> xs[k].None?
  }

  lemma {:induction false} PresentTotalConcat(a: seq<Option<int>>, b: seq<Option<int>>)
    ensures PresentTotal(a + b) == PresentTotal(a) + PresentTotal(b)
  {
    if a == [] {
      assert a + b == b;
    } else {
      assert (a + b)[1..] == a[1..] + b;
      PresentTotalConcat(a[1..], b);
    }
  }

  lemma {:induction false} PresentTotalUndefined(xs: seq<Option<int>>)
    requires AllUndefined(xs)
    ensures PresentTotal(xs) == 0
  {
    if xs != [] {
      assert AllUndefined(xs[1..]) by {
        forall k | 0 <= k < |xs| - 1 ensures xs[1..][k].None? {
          assert xs[1..][k] == xs[k + 1];
        }
      }
      PresentTotalUndefined(xs[1..]);
    }
  }

  lemma AllUndefinedConcat(a: seq<Option<int>>, b: seq<Option<int>>)
    ensures AllUndefined(a + b) <==> AllUndefined(a) && AllUndefined(b)
  {
    if AllUndefined(a) && AllUndefined(b) {
      forall k | 0 <= k < |a + b| ensures (a + b)[k].None? {
        if k < |a| {
          assert (a + b)[k] == a[k];
        } else {
          assert (a + b)[k] == b[k - |a|];
        }
      }
    }
    if AllUndefined(a + b) {
      forall k | 0 <= k < |a| ensures a[k].None? {
        assert (a + b)[k] == a[k];
      }
      forall k | 0 <= k < |b| ensures b[k].None? {
        assert (a + b)[|a| + k] == b[k];
      }
    }
  }

  /**
   * `baseSum` from a running result is `undefined` exactly when that result
   * and every entry are, and otherwise the result plus the defined entries.
   */
  lemma {:induction false} BaseSumIs(result: Option<int>, xs: seq<Option<int>>)
    ensures BaseSum(result, xs) ==
      if result.None? && AllUndefined(xs) then None
      else Some((if result.Some? then result.value else 0) + PresentTotal(xs))
    decreases |xs|
  {
    if xs != [] {
      assert xs == [xs[0]] + xs[1..];
      AllUndefinedConcat([xs[0]], xs[1..]);
      BaseSumIs(AddDefined(result, xs[0]), xs[1..]);
    }
  }

  /**
   * lodash `sum` is `undefined` exactly for a non-empty list whose entries
   * are all `undefined`, and otherwise the total of the defined entries.
   */
  lemma SumIs(xs: seq<Option<int>>)
    ensures Sum(xs) == if xs != [] && AllUndefined(xs) then None else Some(PresentTotal(xs))
  {
    if xs != [] {
      BaseSumIs(None, xs);
    }
  }

  /** The sum of a single entry is that entry, `undefined` included. */
  lemma SumOne(x: Option<int>)
    ensures Sum([x]) == x
  {
    assert [x][1..] == [];
    assert BaseSum(None, [x]) == BaseSum(AddDefined(None, x), []);
  }

  /**
   * lodash `sum` over a concatenation: an empty side changes nothing, and
   * otherwise the two sums combine as `baseSum` combines entries.
   */
  lemma SumConcat(a: seq<Option<int>>, b: seq<Option<int>>)
    ensures Sum(a + b) ==
      if a == [] then Sum(b) else if b == [] then Sum(a) else AddDefined(Sum(a), Sum(b))
  {
    if a == [] {
      assert a + b == b;
    } else if b == [] {
      assert a + b == a;
    } else {
      SumIs(a);
      SumIs(b);
      SumIs(a + b);
      PresentTotalConcat(a, b);
      AllUndefinedConcat(a, b);
      if AllUndefined(a) {
        PresentTotalUndefined(a);
      }
      if AllUndefined(b) {
        PresentTotalUndefined(b);
      }
    }
  }

  /** The audit of every update. */
  function Audits(orders: PageOrders, updates: seq<seq<int>>): (audits: seq<Audit>)
    ensures |audits| == |updates|
    ensures forall k :: 0 <= k < |updates| ==> audits[k] == AuditUpdate(orders, updates[k])
  {
    seq(|updates|, k requires 0 <= k < |updates| => AuditUpdate(orders, updates[k]))
  }

  /** The middle pages of the updates whose audit is ok. */
  function OkMiddles(updates: seq<seq<int>>, audits: seq<Audit>): (middles: seq<Option<int>>)
    requires |updates| == |audits|
  {
    if updates == [] then []
    else (if audits[0].isOk then [MiddlePage(updates[0])] else []) + OkMiddles(updates[1..], audits[1..])
  }

  /** The middle pages of the corrected orders of the audits that are not ok. */
  function CorrectedMiddles(audits: seq<Audit>): (middles: seq<Option<int>>)
  {
    if audits == [] then []
    else
      (if !audits[0].isOk then [MiddlePage(audits[0].correctPageUpdates)] else [])
      + CorrectedMiddles(audits[1..])
  }

  /** `checkSafetyManualUpdates`; None stands for a checksum that is `undefined`. */
  datatype Check = Check(correctPageUpdatesCheck: Option<int>, incorrectPageUpdatesCheck: Option<int>)

  function CheckUpdates(orders: PageOrders, updates: seq<seq<int>>): (check: Check)
  {
    var audits := Audits(orders, updates);
    Check(Sum(OkMiddles(updates, audits)), Sum(CorrectedMiddles(audits)))
  }

  lemma {:induction false} OkMiddlesConcat(a: seq<seq<int>>, b: seq<seq<int>>, x: seq<Audit>, y: seq<Audit>)
    requires |a| == |x| && |b| == |y|
    ensures OkMiddles(a + b, x + y) == OkMiddles(a, x) + OkMiddles(b, y)
  {
    if a == [] {
      assert a + b == b && x + y == y;
    } else {
      assert (a + b)[0] == a[0] && (x + y)[0] == x[0];
      assert (a + b)[1..] == a[1..] + b && (x + y)[1..] == x[1..] + y;
      var head := if x[0].isOk then [MiddlePage(a[0])] else [];
      assert OkMiddles(a + b, x + y) == head + OkMiddles(a[1..] + b, x[1..] + y);
      assert OkMiddles(a, x) == head + OkMiddles(a[1..], x[1..]);
      OkMiddlesConcat(a[1..], b, x[1..], y);
    }
  }

  lemma {:induction false} CorrectedMiddlesConcat(x: seq<Audit>, y: seq<Audit>)
    ensures CorrectedMiddles(x + y) == CorrectedMiddles(x) + CorrectedMiddles(y)
  {
    if x == [] {
      assert x + y == y;
    } else {
      assert (x + y)[1..] == x[1..] + y;
      CorrectedMiddlesConcat(x[1..], y);
    }
  }

  /** There are ok middle pages exactly when some audit is ok. */
  lemma {:induction false} OkMiddlesEmpty(updates: seq<seq<int>>, audits: seq<Audit>)
    requires |updates| == |audits|
    ensures OkMiddles(updates, audits) == [] <==> forall k :: 0 <= k < |audits| ==> !audits[k].isOk
  {
    if updates != [] {
      OkMiddlesEmpty(updates[1..], audits[1..]);
      assert forall k :: 0 <= k < |audits| - 1 ==> audits[1..][k] == audits[k + 1];
      if audits[0].isOk {
        assert |OkMiddles(updates, audits)| > 0;
      }
    }
  }

  /** An audit that is not ok corrects an update with pages. */
  predicate CorrectsPages(audit: Audit)
  {
    audit.isOk || audit.correctPageUpdates != []
  }

  lemma AuditCorrectsPages(orders: PageOrders, update: seq<int>)
    ensures CorrectsPages(AuditUpdate(orders, update))
  {
    if update == [] {
      assert Errors(orders, update) == map[];
    }
  }

  /** The corrected middle pages are all defined when every audit corrects pages. */
  lemma {:induction false} CorrectedMiddlesDefined(audits: seq<Audit>)
    requires forall k :: 0 <= k < |audits| ==> CorrectsPages(audits[k])
    ensures forall k :: 0 <= k < |CorrectedMiddles(audits)| ==> CorrectedMiddles(audits)[k].Some?
  {
    if audits != [] {
      assert forall k :: 0 <= k < |audits| - 1 ==> audits[1..][k] == audits[k + 1];
      CorrectedMiddlesDefined(audits[1..]);
      var head := if !audits[0].isOk then [MiddlePage(audits[0].correctPageUpdates)] else [];
      assert CorrectedMiddles(audits) == head + CorrectedMiddles(audits[1..]);
    }
  }

  /**
   * The second checksum is never `undefined`: an update that is not ok has
   * pages, and so has its corrected order, whose middle page is defined.
   */
  lemma IncorrectCheckDefined(orders: PageOrders, updates: seq<seq<int>>)
    ensures CheckUpdates(orders, updates).incorrectPageUpdatesCheck.Some?
  {
    var audits := Audits(orders, updates);
    forall k | 0 <= k < |audits| ensures CorrectsPages(audits[k]) {
      AuditCorrectsPages(orders, updates[k]);
    }
    CorrectedMiddlesDefined(audits);
    var middles := CorrectedMiddles(audits);
    SumIs(middles);
    if middles != [] {
      assert middles[0].Some?;
    }
  }

  lemma AuditsConcat(orders: PageOrders, a: seq<seq<int>>, b: seq<seq<int>>)
    ensures Audits(orders, a + b) == Audits(orders, a) + Audits(orders, b)
  {
    forall k | 0 <= k < |a| + |b|
      ensures Audits(orders, a + b)[k] == (Audits(orders, a) + Audits(orders, b))[k]
    {
      if k < |a| {
        assert (a + b)[k] == a[k];
      } else {
        assert (a + b)[k] == b[k - |a|];
      }
    }
  }

  /** No update is ok. */
  ghost predicate NoneOk(orders: PageOrders, updates: seq<seq<int>>)
  {
    forall k :: 0 <= k < |updates| ==> !AuditUpdate(orders, updates[k]).isOk
  }

  /**
   * The first checksum over two runs of updates: a run without ok updates
   * changes nothing, and otherwise the two checksums combine as lodash `sum`
   * combines its entries, an `undefined` one being skipped.
   */
  lemma CheckUpdatesConcat(orders: PageOrders, a: seq<seq<int>>, b: seq<seq<int>>)
    ensures CheckUpdates(orders, a + b).correctPageUpdatesCheck ==
      if NoneOk(orders, a) then CheckUpdates(orders, b).correctPageUpdatesCheck
      else if NoneOk(orders, b) then CheckUpdates(orders, a).correctPageUpdatesCheck
      else AddDefined(CheckUpdates(orders, a).correctPageUpdatesCheck, CheckUpdates(orders, b).correctPageUpdatesCheck)
  {
    var x, y := Audits(orders, a), Audits(orders, b);
    AuditsConcat(orders, a, b);
    OkMiddlesConcat(a, b, x, y);
    OkMiddlesEmpty(a, x);
    OkMiddlesEmpty(b, y);
    SumConcat(OkMiddles(a, x), OkMiddles(b, y));
  }

  /** The second checksum adds up over two runs of updates. */
  lemma CheckUpdatesConcatIncorrect(orders: PageOrders, a: seq<seq<int>>, b: seq<seq<int>>)
    ensures CheckUpdates(orders, a).incorrectPageUpdatesCheck.Some?
    ensures CheckUpdates(orders, b).incorrectPageUpdatesCheck.Some?
    ensures CheckUpdates(orders, a + b).incorrectPageUpdatesCheck ==
      Some(CheckUpdates(orders, a).incorrectPageUpdatesCheck.value + CheckUpdates(orders, b).incorrectPageUpdatesCheck.value)
  {
    var x, y := Audits(orders, a), Audits(orders, b);
    var m, n := CorrectedMiddles(x), CorrectedMiddles(y);
    IncorrectCheckDefined(orders, a);
    IncorrectCheckDefined(orders, b);
    AuditsConcat(orders, a, b);
    CorrectedMiddlesConcat(x, y);
    SumAddsDefined(m, n, CheckUpdates(orders, a).incorrectPageUpdatesCheck,
      CheckUpdates(orders, b).incorrectPageUpdatesCheck, CheckUpdates(orders, a + b).incorrectPageUpdatesCheck);
  }

  lemma SumAddsDefined(m: seq<Option<int>>, n: seq<Option<int>>, sm: Option<int>, sn: Option<int>, smn: Option<int>)
    requires sm == Sum(m) && sn == Sum(n) && smn == Sum(m + n)
    requires sm.Some? && sn.Some?
    ensures smn == Some(sm.value + sn.value)
  {
    SumConcat(m, n);
  }

  /** A single update adds its middle page, or its corrected one, to exactly one of the two checksums. */
  lemma CheckUpdatesSingle(orders: PageOrders, update: seq<int>)
    requires update != []
    ensures var audit := AuditUpdate(orders, update);
      CheckUpdates(orders, [update]) ==
        if audit.isOk then Check(Some(update[|update| / 2]), Some(0))
        else Check(Some(0), Some(audit.correctPageUpdates[|update| / 2]))
  {
    var audit := AuditUpdate(orders, update);
    assert Audits(orders, [update]) == [audit];
    MiddlesOfOne(update, audit);
  }

  lemma MiddlesOfOne(update: seq<int>, audit: Audit)
    requires update != [] && |audit.correctPageUpdates| == |update|
    ensures Sum(OkMiddles([update], [audit])) == Some(if audit.isOk then update[|update| / 2] else 0)
    ensures Sum(CorrectedMiddles([audit])) ==
      Some(if audit.isOk then 0 else audit.correctPageUpdates[|update| / 2])
  {
    assert OkMiddles([update], [audit]) == if audit.isOk then [MiddlePage(update)] else [];
    assert CorrectedMiddles([audit]) == if audit.isOk then [] else [MiddlePage(audit.correctPageUpdates)];
    SumOne(MiddlePage(update));
    SumOne(MiddlePage(audit.correctPageUpdates));
  }

  /**
   * An empty update is ok and has no middle page, so the first checksum of
   * the updates `[[]]` is `undefined`, whatever the rules.
   */
  lemma CheckEmptyUpdate(orders: PageOrders)
    ensures CheckUpdates(orders, [[]]) == Check(None, Some(0))
  {
    assert Errors(orders, []) == map[];
    assert Audits(orders, [[]]) == [AuditUpdate(orders, [])];
    assert OkMiddles([[]], Audits(orders, [[]])) == [None];
    assert CorrectedMiddles(Audits(orders, [[]])) == [];
    SumOne(None);
  }

  // ---------------------------------------------------------------------------
  // The sample rules and updates

  const SampleOrders: PageOrders := map[
    29 := [13], 47 := [53, 13, 61, 29], 53 := [29, 13], 61 := [13, 53, 29],
    75 := [29, 53, 47, 61, 13], 97 := [13, 61, 47, 29, 53, 75]]

  ghost predicate Distinct(update: seq<int>)
  {
    forall i, j :: 0 <= i < j < |update| ==> update[i] != update[j]
  }

  /** For an update without repeated pages, `errors` is read off the violation lists index by index. */
  lemma ErrorsExactly(orders: PageOrders, update: seq<int>, expected: map<int, seq<int>>)
    requires Distinct(update)
    requires forall p :: p in expected ==> p in update
    requires forall i :: 0 <= i < |update| ==> Violations(orders, update, i) == Counting.Lookup(expected, update[i], [])
    requires forall p :: p in expected ==> |expected[p]| > 0
    ensures Errors(orders, update) == expected
  {
    ErrorsAtEach(orders, update, expected);
    MapsAgree(Errors(orders, update), expected, update);
  }

  lemma ErrorsAtEach(orders: PageOrders, update: seq<int>, expected: map<int, seq<int>>)
    requires Distinct(update)
    requires forall i :: 0 <= i < |update| ==> Violations(orders, update, i) == Counting.Lookup(expected, update[i], [])
    requires forall p :: p in expected ==> |expected[p]| > 0
    ensures forall p :: p in Errors(orders, update) ==> p in update
    ensures forall i :: 0 <= i < |update| ==>
      (update[i] in Errors(orders, update) <==> update[i] in expected) &&
      (update[i] in expected ==> Errors(orders, update)[update[i]] == expected[update[i]])
  {
    forall i | 0 <= i < |update|
      ensures update[i] in Errors(orders, update) <==> update[i] in expected
      ensures update[i] in expected ==> Errors(orders, update)[update[i]] == expected[update[i]]
    {
      ErrorsAtLast(orders, update, i);
    }
  }

  /** Two maps whose keys lie in `keys` and that agree on every element of `keys` are equal. */
  lemma MapsAgree(m: map<int, seq<int>>, n: map<int, seq<int>>, keys: seq<int>)
    requires forall p :: p in m ==> p in keys
    requires forall p :: p in n ==> p in keys
    requires forall i :: 0 <= i < |keys| ==> (keys[i] in m <==> keys[i] in n) && (keys[i] in n ==> m[keys[i]] == n[keys[i]])
    ensures m == n
  {
    forall p | p in m || p in n
      ensures p in m && p in n && m[p] == n[p]
    {
      var i :| 0 <= i < |keys| && keys[i] == p;
    }
  }

  /** The corrected order is the candidate that is sorted by the key and has each key's pages in update order. */
  lemma CorrectedIs(orders: PageOrders, update: seq<int>, candidate: seq<int>)
    requires Sorting.SortedBy(candidate, Rank(orders, update))
    requires forall n ::
      Sorting.KeyFilter(update, Rank(orders, update), n) == Sorting.KeyFilter(candidate, Rank(orders, update), n)
    ensures CorrectPageUpdates(orders, update) == candidate
  {
    Sorting.SortedByUnique(CorrectPageUpdates(orders, update), candidate, Rank(orders, update));
  }

  lemma SampleViolationsReordered(u: seq<int>, i: nat)
    requires u == [75, 97, 47, 61, 53] && i < |u|
    ensures Violations(SampleOrders, u, i) == Counting.Lookup(map[97 := [75]], u[i], [])
  {
    if i == 1 {
      assert u[..2] == [75, 97];
      assert InList([75, 97], Successors(SampleOrders, 97)) == [75];
      IntersectionOf(u[..2], Successors(SampleOrders, 97), [75]);
    } else {
      ViolationsEmpty(SampleOrders, u, i);
    }
  }

  /** When the common elements are already distinct, the intersection is just them. */
  lemma IntersectionOf(xs: seq<int>, ys: seq<int>, r: seq<int>)
    requires InList(xs, ys) == r
    requires forall i, j :: 0 <= i < j < |r| ==> r[i] != r[j]
    ensures Intersection(xs, ys) == r
  {
    Seqs.DedupDistinct(r);
  }

  /** The update 75,97,47,61,53 prints 75 before 97 against the rule 97|75. */
  lemma SampleErrorsReordered(u: seq<int>)
    requires u == [75, 97, 47, 61, 53]
    ensures Errors(SampleOrders, u) == map[97 := [75]]
  {
    forall i | 0 <= i < |u|
      ensures Violations(SampleOrders, u, i) == Counting.Lookup(map[97 := [75]], u[i], [])
    {
      SampleViolationsReordered(u, i);
    }
    SampleDistinct(u);
    ErrorsExactly(SampleOrders, u, map[97 := [75]]);
  }

  lemma SampleDistinct(u: seq<int>)
    requires u == [75, 97, 47, 61, 53]
    ensures Distinct(u)
  {
  }

  lemma SampleAuditReordered(u: seq<int>)
    requires u == [75, 97, 47, 61, 53]
    ensures !IsOk(SampleOrders, u)
  {
    SampleErrorsReordered(u);
    assert 97 in Errors(SampleOrders, u);
  }

  lemma SampleViolationsUnsorted(u: seq<int>, i: nat, vs: seq<seq<int>>)
    requires u == [97, 13, 75, 29, 47] && i < |u|
    requires vs == [[], [], [13], [13], [13, 29]]
    ensures Violations(SampleOrders, u, i) == vs[i]
  {
    if i == 0 {
      ViolationsEmpty(SampleOrders, u, 0);
    } else if i == 1 {
      ViolationsEmpty(SampleOrders, u, 1);
    } else {
      SampleViolationsUnsortedLate(u, i);
    }
  }

  lemma SampleViolationsUnsortedLate(u: seq<int>, i: nat)
    requires u == [97, 13, 75, 29, 47] && 2 <= i < |u|
    ensures Violations(SampleOrders, u, i) == if i == 4 then [13, 29] else [13]
  {
    if i == 2 {
      SampleViolations75(u);
    } else if i == 3 {
      SampleViolations29(u);
    } else {
      SampleViolations47(u);
    }
  }

  lemma SampleViolations75(u: seq<int>)
    requires u == [97, 13, 75, 29, 47]
    ensures Violations(SampleOrders, u, 2) == [13]
  {
    SampleUnsortedAt(u, 2, [97, 13, 75], [13]);
  }

  lemma SampleViolations29(u: seq<int>)
    requires u == [97, 13, 75, 29, 47]
    ensures Violations(SampleOrders, u, 3) == [13]
  {
    SampleUnsortedAt(u, 3, [97, 13, 75, 29], [13]);
  }

  lemma SampleViolations47(u: seq<int>)
    requires u == [97, 13, 75, 29, 47]
    ensures Violations(SampleOrders, u, 4) == [13, 29]
  {
    SampleInListAt47(Successors(SampleOrders, 47));
    SampleUnsortedAt(u, 4, u, [13, 29]);
  }

  lemma SampleInListAt47(ys: seq<int>)
    requires ys == [53, 13, 61, 29]
    ensures InList([97, 13, 75, 29, 47], ys) == [13, 29]
  {
    assert InList([47], ys) == [];
    assert InList([29, 47], ys) == [29];
    assert InList([75, 29, 47], ys) == [29];
    assert InList([13, 75, 29, 47], ys) == [13, 29];
  }

  lemma SampleUnsortedAt(u: seq<int>, i: nat, prefix: seq<int>, r: seq<int>)
    requires i < |u| && u[..i + 1] == prefix
    requires InList(prefix, Successors(SampleOrders, u[i])) == r
    requires forall a, b :: 0 <= a < b < |r| ==> r[a] != r[b]
    ensures Violations(SampleOrders, u, i) == r
  {
    IntersectionOf(prefix, Successors(SampleOrders, u[i]), r);
  }

  /** The update 97,13,75,29,47 breaks the rules 75|13, 29|13, 47|13 and 47|29. */
  lemma SampleErrorsUnsorted(u: seq<int>)
    requires u == [97, 13, 75, 29, 47]
    ensures Errors(SampleOrders, u) == map[75 := [13], 29 := [13], 47 := [13, 29]]
  {
    var expected := map[75 := [13], 29 := [13], 47 := [13, 29]];
    var vs := [[], [], [13], [13], [13, 29]];
    forall i | 0 <= i < |u|
      ensures Violations(SampleOrders, u, i) == Counting.Lookup(expected, u[i], [])
    {
      SampleViolationsUnsorted(u, i, vs);
      SampleExpectedUnsorted(u, i, vs, expected);
    }
    SampleDistinctUnsorted(u);
    ErrorsExactly(SampleOrders, u, expected);
  }

  lemma SampleExpectedUnsorted(u: seq<int>, i: nat, vs: seq<seq<int>>, expected: map<int, seq<int>>)
    requires u == [97, 13, 75, 29, 47] && i < |u|
    requires vs == [[], [], [13], [13], [13, 29]]
    requires expected == map[75 := [13], 29 := [13], 47 := [13, 29]]
    ensures Counting.Lookup(expected, u[i], []) == vs[i]
  {
  }

  lemma SampleDistinctUnsorted(u: seq<int>)
    requires u == [97, 13, 75, 29, 47]
    ensures Distinct(u)
  {
  }
}
