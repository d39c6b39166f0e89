/** sym_check_deps: a depth-first search that reports recursive dependencies
    (scripts/kconfig/symbol.c). */
module SymbolDeps {
  import opened Options
  import opened Tristates
  import opened Exprs
  import opened SymbolDecls

  /** The symbols under check form one chain of dependencies, innermost last. */
  ghost predicate IsPath(t: Table, stack: seq<Symbol>, members: set<Symbol>) {
    if stack == [] then members == {}
    else
      var top, rest := stack[|stack| - 1], stack[..|stack| - 1];
      && top in members
      && (rest != [] ==> top in Deps(t, rest[|rest| - 1]))
      && IsPath(t, rest, members - {top})
  }

  lemma PushPath(t: Table, stack: seq<Symbol>, members: set<Symbol>, s: Symbol)
    requires IsPath(t, stack, members) && s !in members && (stack != [] ==> s in Deps(t, stack[|stack| - 1]))
    ensures IsPath(t, stack + [s], members + {s})
    ensures (stack + [s])[..|stack + [s]| - 1] == stack && members + {s} - {s} == members
  {
    assert (stack + [s])[..|stack + [s]| - 1] == stack && members + {s} - {s} == members;
  }

  /** A dependency of the innermost symbol that is under check closes a cycle. */
  lemma {:induction false} ClosesCycle(t: Table, stack: seq<Symbol>, members: set<Symbol>, s: Symbol, tail: seq<Symbol>)
    requires IsPath(t, stack, members) && s in members
    requires forall i :: 0 <= i < |tail| - 1 ==> tail[i + 1] in Deps(t, tail[i])
    requires tail != [] ==> tail[0] in Deps(t, stack[|stack| - 1])
    requires if tail != [] then s in Deps(t, tail[|tail| - 1]) else s in Deps(t, stack[|stack| - 1])
    ensures HasCycle(t)
    decreases |stack|
  {
    var top, rest := stack[|stack| - 1], stack[..|stack| - 1];
    var tail' := [top] + tail;
    if top == s {
      assert IsCycle(t, tail');
    } else {
      ClosesCycle(t, rest, members - {top}, s, tail');
    }
  }

  /** Every dependency of a finished symbol was finished before it. */
  ghost predicate Finished(t: Table, finish: RankMap, clock: nat, members: set<Symbol>) {
    && finish.Keys == members
    && (forall s :: s in finish ==> finish[s] < clock && DoneBefore(finish, Deps(t, s), finish[s]))
  }

  ghost predicate DoneBefore(finish: RankMap, symbols: set<Symbol>, time: nat) {
    forall d :: d in symbols ==> d in finish && finish[d] < time
  }

  lemma FinishOne(t: Table, finish: RankMap, clock: nat, members: set<Symbol>, s: Symbol)
    requires Finished(t, finish, clock, members) && Deps(t, s) <= members && s !in members
    ensures Finished(t, finish[s := clock], clock + 1, members + {s})
  {
    var finish' := finish[s := clock];
    forall x | x in finish'
      ensures finish'[x] < clock + 1 && DoneBefore(finish', Deps(t, x), finish'[x])
    {
      if x != s {
        assert DoneBefore(finish, Deps(t, x), finish[x]);
      }
    }
  }

  /** Each symbol of a printed line is one that the next one depends on. */
  ghost predicate IsTrail(t: Table, line: seq<Symbol>) {
    forall i :: 0 <= i < |line| - 1 ==> line[i] in Deps(t, line[i + 1])
  }

  /** A line that comes back to where it began. */
  ghost predicate IsClosed(t: Table, line: seq<Symbol>) {
    |line| > 1 && line[0] == line[|line| - 1] && IsTrail(t, line)
  }

  predicate IsPrefix<T(==)>(a: seq<T>, b: seq<T>) {
    a <= b
  }

  lemma PrefixTrans<T>(a: seq<T>, b: seq<T>, c: seq<T>)
    requires IsPrefix(a, b) && IsPrefix(b, c)
    ensures IsPrefix(a, c)
  {
  }

  class DepChecker {
    const table: Table

    /** The symbols flagged SYMBOL_CHECK and SYMBOL_CHECKED. */
    var check: set<Symbol>
    var checked: set<Symbol>

    /** The warnings printed, each with the symbols it names, and the one that has been
        begun. */
    var reports: seq<seq<Symbol>>
    var line: seq<Symbol>

    /** The symbols being checked, outermost first, and when each symbol was done. */
    ghost var stack: seq<Symbol>
    ghost var finish: RankMap
    ghost var clock: nat

    constructor (t: Table)
      ensures table == t && Valid()
      ensures check == {} && checked == {} && reports == [] && line == [] && stack == [] && finish == map[]
    {
      table := t;
      check, checked, reports, line, stack, finish, clock := {}, {}, [], [], [], map[], 0;
    }

    ghost predicate Valid()
      reads this
    {
      && check <= checked
      && IsPath(table, stack, check)
      && (reports == [] && line == [] ==> Finished(table, finish, clock, checked - check))
      && (reports != [] || line != [] ==> HasCycle(table))
      && forall l :: l in reports ==> IsClosed(table, l)
    }

    /** What a call may and may not do: flags and reports only grow, and the symbols
        under check are those of before. */
    twostate predicate Progress()
      reads this
    {
      && Valid() && check == old(check) && stack == old(stack)
      && old(checked) <= checked && IsPrefix(old(reports), reports)
    }

    /** A symbol is returned while the warning about it goes on: what is printed leads
        from it to the symbol that is being left. */
    ghost predicate Warns(r: Option<Symbol>)
      reads this
    {
      if r.None? then line == []
      else
        && r.value in check && line != [] && line[0] == r.value && IsTrail(table, line)
        && stack != [] && line[|line| - 1] in Deps(table, stack[|stack| - 1])
    }

    method CheckExpr(e: Expr) returns (r: Option<Symbol>)
      requires Valid() && line == [] && stack != [] && Symbols(e) <= Deps(table, stack[|stack| - 1])
      modifies this
      ensures Progress()
      ensures Warns(r)
      ensures r.None? ==> Symbols(e) <= checked - check
      decreases |table.Keys - checked|, 4, Size(e)
    {
      match e
      case Junction(_, left, right) =>
        r := CheckOperands(left, right);
      case Not(x) =>
        r := CheckExpr(x);
      case Equal(left, right) =>
        r := CheckBoth(left, right);
      case Unequal(left, right) =>
        r := CheckBoth(left, right);
      case Sym(s) =>
        r := CheckSymbol(s);
    }

    method CheckOperands(left: Expr, right: Expr) returns (r: Option<Symbol>)
      requires Valid() && line == [] && stack != []
      requires Symbols(left) <= Deps(table, stack[|stack| - 1]) && Symbols(right) <= Deps(table, stack[|stack| - 1])
      modifies this
      ensures Progress()
      ensures Warns(r)
      ensures r.None? ==> Symbols(left) <= checked - check && Symbols(right) <= checked - check
      decreases |table.Keys - checked|, 4, Size(left) + Size(right)
    {
      r := CheckExpr(left);
      if r.Some? {
        return;
      }
      KeysShrink(old(checked));
      r := CheckExpr(right);
    }

    method CheckBoth(left: Symbol, right: Symbol) returns (r: Option<Symbol>)
      requires Valid() && line == [] && stack != [] && {left, right} <= Deps(table, stack[|stack| - 1])
      modifies this
      ensures Progress()
      ensures Warns(r)
      ensures r.None? ==> {left, right} <= checked - check
      decreases |table.Keys - checked|, 3
    {
      r := CheckSymbol(left);
      if r.Some? {
        return;
      }
      KeysShrink(old(checked));
      r := CheckSymbol(right);
    }

    lemma KeysShrink(before: set<Symbol>)
      requires before <= checked
      ensures |table.Keys - checked| <= |table.Keys - before|
    {
      SubsetSize(table.Keys - checked, table.Keys - before);
    }

    static lemma {:induction false} SubsetSize<T>(a: set<T>, b: set<T>)
      requires a <= b
      ensures |a| <= |b|
      ensures a != b ==> |a| < |b|
    {
      if a != {} {
        var x :| x in a;
        SubsetSize(a - {x}, b - {x});
      } else if b != {} {
        var x :| x in b;
        assert |b - {x}| + 1 == |b|;
      }
    }

    method CheckOpt(e: Option<Expr>) returns (r: Option<Symbol>)
      requires Valid() && line == [] && stack != [] && OptSymbols(e) <= Deps(table, stack[|stack| - 1])
      modifies this
      ensures Progress()
      ensures Warns(r)
      ensures r.None? ==> OptSymbols(e) <= checked - check
      decreases |table.Keys - checked|, 5
    {
      if e.None? {
        return None;
      }
      r := CheckExpr(e.value);
    }

    /** sym_check_deps.  At the outermost level the answer is always "none": whoever
        wants to know looks at the reports. */
    method CheckSymbol(s: Symbol) returns (r: Option<Symbol>)
      requires Valid() && line == [] && (stack != [] ==> s in Deps(table, stack[|stack| - 1]))
      modifies this
      ensures Progress()
      ensures Warns(r)
      ensures r.None? ==> s in checked - check
      decreases |table.Keys - checked|, 2
    {
      if s in check {
        ClosesCycle(table, stack, check, s, []);
        line := [s];
        return Some(s);
      }
      if s in checked {
        return None;
      }
      r := Explore(s);
    }

    /** The body of the search for a symbol seen for the first time. */
    method Explore(s: Symbol) returns (r: Option<Symbol>)
      requires Valid() && line == [] && s !in checked && (stack != [] ==> s in Deps(table, stack[|stack| - 1]))
      modifies this
      ensures Progress()
      ensures Warns(r)
      ensures r.None? ==> s in checked - check
      decreases |table.Keys - checked|, 1
    {
      hide IsPath, Finished, HasCycle, Deps, Warns, Valid, IsPrefix;
      ValidPath();
      Enter(s);
      assert checked - {s} == old(checked);
      r := CheckDecl(s);
      ghost var mid := reports;
      r := NameAndLeave(s, r, old(stack), old(check));
      PrefixTrans(old(reports), mid, reports);
    }

    lemma ValidPath()
      requires Valid()
      ensures IsPath(table, stack, check) && (stack == [] ==> check == {})
      ensures forall x :: x !in checked ==> x !in check
    {
    }

    /** The end of the search for a symbol. */
    method NameAndLeave(s: Symbol, r: Option<Symbol>, ghost stackBefore: seq<Symbol>, ghost checkBefore: set<Symbol>)
      returns (r': Option<Symbol>)
      requires Valid() && Warns(r) && stack == stackBefore + [s] && check == checkBefore + {s}
      requires s !in checkBefore && IsPath(table, stackBefore, checkBefore) && (stackBefore == [] ==> checkBefore == {})
      requires stackBefore != [] ==> s in Deps(table, stackBefore[|stackBefore| - 1])
      requires r.None? ==> Deps(table, s) <= checked - check
      modifies `line, `reports, `check, `stack, `finish, `clock
      ensures Valid() && Warns(r') && stack == stackBefore && check == checkBefore && IsPrefix(old(reports), reports)
      ensures checked - check == old(checked - check) + {s}
    {
      hide IsPath, Finished, HasCycle, Deps, IsTrail, IsClosed, Valid;
      r' := Name(s, r);
      Leave(s, stackBefore, checkBefore);
    }

    /** The symbol that is left is named in a warning that goes on; one that began it
        ends it. */
    method Name(s: Symbol, r: Option<Symbol>) returns (r': Option<Symbol>)
      requires Valid() && Warns(r) && stack != [] && s == stack[|stack| - 1]
      modifies `line, `reports
      ensures Valid() && IsPrefix(old(reports), reports)
      ensures r' == if r == Some(s) then None else r
      ensures if r'.None? then line == [] else line != [] && line[0] == r'.value && IsTrail(table, line) && line[|line| - 1] == s
      ensures r.Some? ==> reports != [] || line != []
    {
      hide IsPath, Finished, HasCycle, Deps;
      r' := r;
      if r.Some? {
        line := line + [s];
        if r == Some(s) {
          reports, line, r' := reports + [line], [], None;
        }
      }
    }

    /** A symbol without a declaration has nothing to follow. */
    method CheckDecl(s: Symbol) returns (r: Option<Symbol>)
      requires Valid() && line == [] && stack != [] && s == stack[|stack| - 1] && s in checked
      modifies this
      ensures Progress()
      ensures Warns(r)
      ensures r.None? ==> Deps(table, s) <= checked - check
      decreases |table.Keys - (checked - {s})|, 0
    {
      OnlyDeclaredDepend(table, s);
      if s !in table {
        return None;
      }
      SubsetSize(table.Keys - checked, table.Keys - (checked - {s}));
      r := CheckProps(s, table[s]);
    }

    /** Set both flags. */
    method Enter(s: Symbol)
      requires Valid() && s !in checked && (stack != [] ==> s in Deps(table, stack[|stack| - 1]))
      modifies `check, `checked, `stack
      ensures Valid()
      ensures check == old(check) + {s} && checked == old(checked) + {s} && stack == old(stack) + [s]
      ensures checked - check == old(checked - check)
    {
      PushPath(table, stack, check, s);
      assert checked + {s} - (check + {s}) == checked - check;
      check, checked, stack := check + {s}, checked + {s}, stack + [s];
    }

    /** Clear SYMBOL_CHECK again. */
    method Leave(s: Symbol, ghost stackBefore: seq<Symbol>, ghost checkBefore: set<Symbol>)
      requires Valid() && stack == stackBefore + [s] && check == checkBefore + {s}
      requires s !in checkBefore && IsPath(table, stackBefore, checkBefore)
      requires reports != [] || line != [] || Deps(table, s) <= checked - check
      modifies `check, `stack, `finish, `clock
      ensures Valid() && stack == stackBefore && check == checkBefore
      ensures checked - check == old(checked - check) + {s}
    {
      if reports == [] && line == [] {
        FinishOne(table, finish, clock, checked - check, s);
      }
      assert checked - check + {s} == checked - checkBefore;
      check, stack := check - {s}, stackBefore;
      finish, clock := finish[s := clock], clock + 1;
    }

    method CheckProps(s: Symbol, d: Decl) returns (r: Option<Symbol>)
      requires Valid() && line == [] && stack != [] && s == stack[|stack| - 1] && s in table && d == table[s]
      modifies this
      ensures Progress()
      ensures Warns(r)
      ensures r.None? ==> Deps(table, s) <= checked - check
      decreases |table.Keys - checked|, 7
    {
      hide Valid, PropSymbols, OptSymbols;
      r := CheckOpt(d.revDep);
      if r.Some? {
        return;
      }
      var i := 0;
      while i < |d.props|
        invariant 0 <= i <= |d.props|
        invariant Progress() && r.None? && line == []
        invariant OptSymbols(d.revDep) <= checked - check && PropsSymbols(d.props[..i]) <= checked - check
      {
        PropsSymbolsSplit(d.props, i);
        KeysShrink(old(checked));
        r := CheckProp(d.props[i]);
        if r.Some? {
          return;
        }
        i := i + 1;
      }
      assert d.props[..i] == d.props;
    }

    method CheckProp(p: Property) returns (r: Option<Symbol>)
      requires Valid() && line == [] && stack != [] && PropSymbols(p) <= Deps(table, stack[|stack| - 1])
      modifies this
      ensures Progress()
      ensures Warns(r)
      ensures r.None? ==> PropSymbols(p) <= checked - check
      decreases |table.Keys - checked|, 6
    {
      if p.ptype == SelectProp {
        return None;
      }
      r := CheckOpt(p.visible);
      if r.Some? {
        return;
      }
      if p.ptype != DefaultProp {
        return;
      }
      KeysShrink(old(checked));
      r := CheckOpt(p.expr);
    }

    static lemma {:induction false} PropsSymbolsSplit(props: seq<Property>, i: nat)
      requires i < |props|
      ensures PropsSymbols(props[..i + 1]) == PropsSymbols(props[..i]) + PropSymbols(props[i])
      ensures PropSymbols(props[i]) <= PropsSymbols(props)
    {
      if i == 0 {
        assert props[..1] == [props[0]] && props[..0] == [];
      } else {
        PropsSymbolsSplit(props[1..], i - 1);
        assert props[..i + 1][1..] == props[1..][..i] && props[..i][1..] == props[1..][..i - 1];
      }
    }
  }

  /** The check as it is run after parsing, on every symbol and from clear flags: it
      reports something exactly when the declarations have a cycle, and with no report
      the finishing times are a rank that falls along every dependency.  What the calls
      return says nothing, it is "none" every time. */
  method CheckAll(t: Table, symbols: seq<Symbol>) returns (checker: DepChecker, answers: seq<Option<Symbol>>)
    requires forall s :: s in t ==> s in symbols
    ensures checker.table == t
    ensures checker.reports != [] <==> HasCycle(t)
    ensures checker.reports != [] <==> exists c :: NeedsCycle(t, c)
    ensures checker.reports == [] ==> Ranked(t, checker.finish)
    ensures forall l :: l in checker.reports ==> IsClosed(t, l)
    ensures forall a :: a in answers ==> a == None
  {
    checker := new DepChecker(t);
    answers := [];
    var i := 0;
    while i < |symbols|
      invariant 0 <= i <= |symbols|
      invariant fresh(checker) && checker.table == t
      invariant checker.Valid() && checker.stack == [] && checker.check == {} && checker.line == []
      invariant forall k :: 0 <= k < i ==> symbols[k] in checker.checked
      invariant forall a :: a in answers ==> a == None
    {
      var a := checker.CheckSymbol(symbols[i]);
      answers := answers + [a];
      i := i + 1;
    }
    if checker.reports == [] {
      assert checker.checked - checker.check == checker.checked;
      forall s, d | s in t && d in Deps(t, s)
        ensures RankOf(checker.finish, d) < RankOf(checker.finish, s)
      {
        assert s in checker.finish;
      }
      RankedHasNoCycle(t, checker.finish);
    }
    CyclesByNeed(t);
  }

  lemma CyclesByNeed(t: Table)
    ensures HasCycle(t) <==> exists c :: NeedsCycle(t, c)
  {
    if c :| IsCycle(t, c) {
      CyclesAre(t, c);
    }
    if c :| NeedsCycle(t, c) {
      CyclesAre(t, c);
    }
  }

  /** "config A / select B" and "config B": the select names B, and B has the reverse
      dependency A.  Nothing is reported. */
  method SelectTable(a: Symbol, b: Symbol) returns (checker: DepChecker)
    requires a != b
    ensures checker.reports == []
  {
    var t: Table := map[a := Decl([Property(SelectProp, false, None, Some(Sym(b)))], None), b := Decl([], Some(Sym(a)))];
    var answers;
    checker, answers := CheckAll(t, [a, b]);
    assert forall s, d :: Needs(t, s, d) ==> s == b && d == a;
    forall c
      ensures !NeedsCycle(t, c)
    {
      if |c| > 0 {
        assert Needs(t, c[0], Next(c, 0)) ==> c[0] == b && Next(c, 0) == a;
        assert |c| > 1 ==> (Needs(t, c[1], Next(c, 1)) ==> c[1] == b);
      }
    }
  }
}
