/** getopt in PERMUTE mode (tools/install/lib/getopt.c): how the arguments are
    exchanged, and what a whole run does to argv. */
module Getopt {
  import opened Options

  // The options a caller knows

  datatype LongOption = LongOption(name: string, hasArg: nat)

  /** The option letters with their colons, and the long options if there are any. */
  datatype Spec = Spec(optstring: string, longopts: Option<seq<LongOption>>)

  datatype Arity = Unknown | NoArgument | RequiredArgument | OptionalArgument

  /** What one call reports: an option with its argument, or an error by its code. */
  datatype Answer = Done | Short(c: char, arg: Option<string>) | Long(index: nat, larg: Option<string>) | Error(code: char)

  /** my_index */
  function IndexOf(s: string, c: char): Option<nat> {
    if s == [] then None
    else if s[0] == c then Some(0)
    else match IndexOf(s[1..], c) case None => None case Some(i) => Some(i + 1)
  }

  lemma {:induction false} IndexInside(s: string, c: char)
    ensures IndexOf(s, c).Some? ==> IndexOf(s, c).value < |s| && s[IndexOf(s, c).value] == c
    ensures IndexOf(s, c).None? <==> c !in s
  {
    if s != [] {
      IndexInside(s[1..], c);
    }
  }

  /** A letter is looked up in the option string; a colon is no letter.  The colons
      that follow it say whether it takes an argument. */
  function ArityOf(o: Spec, c: char): Arity {
    var at := IndexOf(o.optstring, c);
    if at.None? || c == ':' then Unknown
    else
      var rest := if at.value + 1 <= |o.optstring| then o.optstring[at.value + 1..] else [];
      if rest == [] || rest[0] != ':' then NoArgument
      else if |rest| == 1 || rest[1] != ':' then RequiredArgument
      else OptionalArgument
  }

  function MissingCode(o: Spec): char {
    if o.optstring != [] && o.optstring[0] == ':' then ':' else '?'
  }

  // What the arguments mean, read from left to right with nothing moved

  /** Everything but "-x..." stands for itself. */
  predicate NonOption(a: string) {
    a == [] || a[0] != '-' || |a| == 1
  }

  predicate IsLong(o: Spec, a: string) {
    o.longopts.Some? && |a| >= 2 && a[1] == '-'
  }

  /** Letters of one argument; `next` are the arguments after it.  The flag tells
      whether the first of them was taken as an argument of the last letter. */
  function Cluster(o: Spec, letters: string, next: seq<string>): (r: (seq<Answer>, bool))
    ensures r.1 ==> next != []
  {
    if letters == [] then ([], false)
    else
      var c, rest := letters[0], letters[1..];
      match ArityOf(o, c)
      case Unknown => var r := Cluster(o, rest, next); ([Error('?')] + r.0, r.1)
      case NoArgument => var r := Cluster(o, rest, next); ([Short(c, None)] + r.0, r.1)
      case OptionalArgument => ([Short(c, if rest != [] then Some(rest) else None)], false)
      case RequiredArgument =>
        if rest != [] then ([Short(c, Some(rest))], false)
        else if next == [] then ([Error(MissingCode(o))], false)
        else ([Short(c, Some(next[0]))], true)
  }

  /** The name of a long option ends at an equals sign. */
  function NamePart(s: string): string {
    if s == [] || s[0] == '=' then [] else [s[0]] + NamePart(s[1..])
  }

  datatype Match = NotFound | Ambiguous | Found(index: nat)

  /** An exact name wins, else the only name that starts like this. */
  ghost predicate IsMatch(longopts: seq<LongOption>, name: string, m: Match) {
    match m
    case Found(i) =>
      && i < |longopts| && name <= longopts[i].name
      && (forall j :: 0 <= j < i ==> longopts[j].name != name)
      && (longopts[i].name != name ==> forall j :: 0 <= j < |longopts| && name <= longopts[j].name ==> j == i)
    case NotFound => forall j :: 0 <= j < |longopts| ==> !(name <= longopts[j].name)
    case Ambiguous =>
      && (forall j :: 0 <= j < |longopts| ==> longopts[j].name != name)
      && (exists j, k :: 0 <= j < k < |longopts| && name <= longopts[j].name && name <= longopts[k].name)
  }

  /** The search of the program, entry by entry. */
  function Search(longopts: seq<LongOption>, name: string, from: nat, found: Option<nat>, ambig: bool): Match
    requires from <= |longopts|
    decreases |longopts| - from
  {
    if from == |longopts| then
      if ambig then Ambiguous else if found.Some? then Found(found.value) else NotFound
    else if !(name <= longopts[from].name) then Search(longopts, name, from + 1, found, ambig)
    else if |name| == |longopts[from].name| then Found(from)
    else if found.None? then Search(longopts, name, from + 1, Some(from), ambig)
    else Search(longopts, name, from + 1, found, true)
  }

  lemma {:induction false} SearchFinds(longopts: seq<LongOption>, name: string, from: nat, found: Option<nat>, ambig: bool)
    requires from <= |longopts|
    requires forall j :: 0 <= j < from ==> longopts[j].name != name
    requires found.None? ==> !ambig && forall j :: 0 <= j < from ==> !(name <= longopts[j].name)
    requires found.Some? ==> found.value < from && name <= longopts[found.value].name
    requires found.Some? && !ambig ==> forall j :: 0 <= j < from && name <= longopts[j].name ==> j == found.value
    requires ambig ==> exists j, k :: 0 <= j < k < from && name <= longopts[j].name && name <= longopts[k].name
    ensures IsMatch(longopts, name, Search(longopts, name, from, found, ambig))
    decreases |longopts| - from
  {
    if from < |longopts| {
      if !(name <= longopts[from].name) {
        SearchFinds(longopts, name, from + 1, found, ambig);
      } else if |name| == |longopts[from].name| {
      } else if found.None? {
        SearchFinds(longopts, name, from + 1, Some(from), ambig);
      } else {
        SearchFinds(longopts, name, from + 1, found, true);
      }
    }
  }

  /** One long option, `text` being what follows the two dashes. */
  function LongElement(o: Spec, text: string, next: seq<string>): (r: (Answer, bool))
    requires o.longopts.Some?
    ensures r.1 ==> next != []
  {
    var name := NamePart(text);
    match Search(o.longopts.value, name, 0, None, false)
    case NotFound => (Error('?'), false)
    case Ambiguous => (Error('?'), false)
    case Found(i) =>
      var hasArg := if i < |o.longopts.value| then o.longopts.value[i].hasArg else 0;
      if |name| < |text| then
        if hasArg != 0 then (Long(i, Some(text[|name| + 1..])), false) else (Error('?'), false)
      else if hasArg != 1 then (Long(i, None), false)
      else if next == [] then (Error(MissingCode(o)), false)
      else (Long(i, Some(next[0])), true)
  }

  /** The reports in order, the arguments that belong to options, and the others. */
  datatype Parse = Parse(events: seq<Answer>, options: seq<string>, rest: seq<string>)

  /** Any number of options and other arguments; "--" ends the options. */
  function Scan(o: Spec, args: seq<string>): Parse
    decreases |args|, 1
  {
    if args == [] then Parse([], [], [])
    else if NonOption(args[0]) then
      var p := Scan(o, args[1..]);
      p.(rest := [args[0]] + p.rest)
    else if args[0] == "--" then Parse([], [args[0]], args[1..])
    else if IsLong(o, args[0]) then
      var (a, taken) := LongElement(o, args[0][2..], args[1..]);
      After(o, [a], if taken then 2 else 1, args)
    else
      var (events, taken) := Cluster(o, args[0][1..], args[1..]);
      After(o, events, if taken then 2 else 1, args)
  }

  /** The first `n` arguments belong to options that give `events`. */
  function After(o: Spec, events: seq<Answer>, n: nat, args: seq<string>): Parse
    requires 0 < n <= |args|
    decreases |args|, 0
  {
    var p := Scan(o, args[n..]);
    Parse(events + p.events, args[..n] + p.options, p.rest)
  }

  /** Every element of `args` stands in one of the other two, in the same order. */
  predicate Interleaves<T(==)>(args: seq<T>, xs: seq<T>, ys: seq<T>) {
    if args == [] then xs == [] && ys == []
    else
      || (xs != [] && xs[0] == args[0] && Interleaves(args[1..], xs[1..], ys))
      || (ys != [] && ys[0] == args[0] && Interleaves(args[1..], xs, ys[1..]))
  }

  lemma {:induction false} AllToTheRight<T>(args: seq<T>)
    ensures Interleaves(args, [], args)
  {
    if args != [] {
      AllToTheRight(args[1..]);
    }
  }

  /** Nothing gets lost, and options as well as other arguments keep their order. */
  lemma {:induction false} ScanIsStable(o: Spec, args: seq<string>)
    ensures Interleaves(args, Scan(o, args).options, Scan(o, args).rest)
    decreases |args|
  {
    if args != [] {
      if NonOption(args[0]) {
        ScanIsStable(o, args[1..]);
      } else if args[0] == "--" {
        AllToTheRight(args[1..]);
        assert [args[0]][1..] == [];
      } else {
        var taken := if IsLong(o, args[0]) then LongElement(o, args[0][2..], args[1..]).1 else Cluster(o, args[0][1..], args[1..]).1;
        var n := if taken then 2 else 1;
        ScanIsStable(o, args[n..]);
        TakenFirst(args, n, Scan(o, args[n..]).options, Scan(o, args[n..]).rest);
      }
    }
  }

  lemma TakenFirst<T>(args: seq<T>, n: nat, xs: seq<T>, ys: seq<T>)
    requires 1 <= n <= 2 && n <= |args| && Interleaves(args[n..], xs, ys)
    ensures Interleaves(args, args[..n] + xs, ys)
  {
    if n == 2 {
      assert args[1..][1..] == args[2..];
      assert (args[1..2] + xs)[1..] == xs;
      assert Interleaves(args[1..], args[1..2] + xs, ys);
    }
    assert (args[..n] + xs)[1..] == args[1..n] + xs;
    assert n == 1 ==> args[1..n] + xs == xs;
  }

  // Moving arguments in place

  /** The parts s[bottom..middle] and s[middle..top] change places. */
  function Rotated<T>(s: seq<T>, bottom: nat, middle: nat, top: nat): seq<T>
    requires bottom <= middle <= top <= |s|
  {
    s[..bottom] + s[middle..top] + s[bottom..middle] + s[top..]
  }

  function Swapped<T>(s: seq<T>, i: nat, j: nat, len: nat): seq<T>
    requires i + len <= j && j + len <= |s|
  {
    s[..i] + s[j..j + len] + s[i + len..j] + s[i..i + len] + s[j + len..]
  }

  lemma RotatedParts<T>(p: seq<T>, x: seq<T>, y: seq<T>, q: seq<T>)
    ensures Rotated(p + x + y + q, |p|, |p| + |x|, |p| + |x| + |y|) == p + y + x + q
  {
    var s := p + x + y + q;
    assert s[..|p|] == p && s[|p|..|p| + |x|] == x && s[|p| + |x|..|p| + |x| + |y|] == y && s[|p| + |x| + |y|..] == q;
  }

  lemma SwappedParts<T>(p: seq<T>, x: seq<T>, y: seq<T>, z: seq<T>, q: seq<T>)
    requires |x| == |z|
    ensures Swapped(p + x + y + z + q, |p|, |p| + |x| + |y|, |x|) == p + z + y + x + q
  {
    var s, i, j, len := p + x + y + z + q, |p|, |p| + |x| + |y|, |x|;
    assert s[..i] == p && s[i..i + len] == x && s[i + len..j] == y && s[j..j + len] == z && s[j + len..] == q;
  }

  /** A sequence by its parts. */
  lemma Parts<T>(s: seq<T>, a: nat, b: nat, c: nat, d: nat)
    requires a <= b <= c <= d <= |s|
    ensures s == s[..a] + s[a..b] + s[b..c] + s[c..d] + s[d..]
    ensures s[a..c] == s[a..b] + s[b..c] && s[b..d] == s[b..c] + s[c..d]
  {
  }

  lemma Regroup<T>(p: seq<T>, x: seq<T>, y: seq<T>, z: seq<T>, q: seq<T>)
    ensures p + x + (y + z) + q == p + x + y + z + q == p + (x + y) + z + q
  {
  }

  /** The short bottom part goes to its place at the far end. */
  lemma ShortBottom<T>(s: seq<T>, bottom: nat, middle: nat, top: nat)
    requires bottom <= middle <= top <= |s| && top - middle > middle - bottom
    ensures
      var len := middle - bottom;
      Rotated(Swapped(s, bottom, top - len, len), bottom, middle, top - len) == Rotated(s, bottom, middle, top)
  {
    hide Swapped, Rotated;
    var len := middle - bottom;
    var p, x, y, z, q := s[..bottom], s[bottom..middle], s[middle..top - len], s[top - len..top], s[top..];
    Parts(s, bottom, middle, top - len, top);
    SwappedParts(p, x, y, z, q);
    assert p + z + y + x + q == p + z + y + (x + q) by { EndsPlain(p + z + y, x, q); }
    RotatedParts(p, z, y, x + q);
    assert s == p + x + (y + z) + q by { Regroup(p, x, y, z, q); }
    RotatedParts(p, x, y + z, q);
    assert p + y + z + (x + q) == p + (y + z) + x + q by { EndsPlain(p + y + z, x, q); Regroup(p, y, z, x, q); }
  }

  lemma EndsPlain<T>(a: seq<T>, x: seq<T>, q: seq<T>)
    ensures a + x + q == a + (x + q)
  {
  }

  /** The short top part goes to its place at the near end. */
  lemma ShortTop<T>(s: seq<T>, bottom: nat, middle: nat, top: nat)
    requires bottom <= middle <= top <= |s| && top - middle <= middle - bottom
    ensures
      var len := top - middle;
      Rotated(Swapped(s, bottom, middle, len), bottom + len, middle, top) == Rotated(s, bottom, middle, top)
  {
    hide Swapped, Rotated;
    var len := top - middle;
    var p, x, y, z, q := s[..bottom], s[bottom..bottom + len], s[bottom + len..middle], s[middle..top], s[top..];
    Parts(s, bottom, bottom + len, middle, top);
    SwappedParts(p, x, y, z, q);
    RotatedParts(p + z, y, x, q);
    assert s == p + (x + y) + z + q by { Regroup(p, x, y, z, q); }
    RotatedParts(p, x + y, z, q);
    assert p + z + x + y + q == p + z + (x + y) + q by { Regroup(p, z, x, y, q); }
  }

  lemma SwapOneMore<T>(s: seq<T>, i: nat, j: nat, k: nat)
    requires i + k < j && j + k < |s|
    ensures Swapped(s, i, j, k)[i + k := s[j + k]][j + k := s[i + k]] == Swapped(s, i, j, k + 1)
    ensures Swapped(s, i, j, k)[i + k] == s[i + k] && Swapped(s, i, j, k)[j + k] == s[j + k]
  {
  }

  /** Two blocks of the array change places, one pair at a time. */
  method SwapBlocks<T>(a: array<T>, i: nat, j: nat, len: nat)
    requires i + len <= j && j + len <= a.Length
    modifies a
    ensures a[..] == Swapped(old(a[..]), i, j, len)
  {
    ghost var was := a[..];
    assert was == Swapped(was, i, j, 0);
    var k := 0;
    hide Swapped;
    while k < len
      invariant k <= len
      invariant a[..] == Swapped(was, i, j, k)
    {
      SwapOneMore(was, i, j, k);
      ghost var now := a[..];
      assert now[i + k] == was[i + k] && now[j + k] == was[j + k];
      a[i + k], a[j + k] := a[j + k], a[i + k];
      assert a[..] == now[i + k := was[j + k]][j + k := was[i + k]];
      k := k + 1;
    }
  }

  lemma NothingToRotate<T>(s: seq<T>, bottom: nat, middle: nat, top: nat)
    requires bottom <= middle <= top <= |s| && (bottom == middle || middle == top)
    ensures Rotated(s, bottom, middle, top) == s
  {
  }

  /** The loop of `exchange`: the shorter part is swapped into its place until one
      part is empty. */
  method Rotate<T>(a: array<T>, first: nat, last: nat, end: nat)
    requires first <= last <= end <= a.Length
    modifies a
    ensures a[..] == Rotated(old(a[..]), first, last, end)
  {
    hide Rotated, Swapped;
    ghost var now := a[..];
    ghost var goal := Rotated(now, first, last, end);
    var bottom: nat, middle: nat, top: nat := first, last, end;
    while top > middle && middle > bottom
      invariant bottom <= middle <= top <= |now|
      invariant now == a[..] && Rotated(now, bottom, middle, top) == goal
      decreases top - bottom
    {
      if top - middle > middle - bottom {
        ShortBottom(now, bottom, middle, top);
        var len := middle - bottom;
        SwapBlocks(a, bottom, top - len, len);
        now := a[..];
        top := top - len;
      } else {
        ShortTop(now, bottom, middle, top);
        var len := top - middle;
        SwapBlocks(a, bottom, middle, len);
        now := a[..];
        bottom := bottom + len;
      }
    }
    NothingToRotate(now, bottom, middle, top);
  }

  // What is left to do in the middle of a run

  /** The parse of the arguments from optind on, whose first may be half read. */
  function Ahead(o: Spec, args: seq<string>, nextchar: Option<string>): Parse
    requires InCluster(nextchar) ==> args != []
  {
    if InCluster(nextchar) then
      var (events, taken) := Cluster(o, nextchar.value, args[1..]);
      After(o, events, if taken then 2 else 1, args)
    else Scan(o, args)
  }

  predicate InCluster(nextchar: Option<string>) {
    nextchar.Some? && nextchar.value != []
  }

  predicate WellPlaced(o: Spec, argv: seq<string>, first: nat, last: nat, optind: nat, nextchar: Option<string>) {
    && 1 <= first <= last <= optind <= |argv|
    && (InCluster(nextchar) ==> optind < |argv| && |argv[optind]| >= 2 && !IsLong(o, argv[optind]))
  }

  /** The result of the whole run as a state in the middle of it determines it. */
  function Meaning(o: Spec, argv: seq<string>, first: nat, last: nat, optind: nat, nextchar: Option<string>): Parse
    requires WellPlaced(o, argv, first, last, optind, nextchar)
  {
    var ahead := Ahead(o, argv[optind..], nextchar);
    Parse(ahead.events, argv[1..first] + argv[last..optind] + ahead.options, argv[first..last] + ahead.rest)
  }

  lemma ExchangeKeeps(o: Spec, argv: seq<string>, first: nat, last: nat, optind: nat, nextchar: Option<string>)
    requires WellPlaced(o, argv, first, last, optind, nextchar) && !InCluster(nextchar)
    ensures WellPlaced(o, Rotated(argv, first, last, optind), first + (optind - last), optind, optind, nextchar)
    ensures Meaning(o, Rotated(argv, first, last, optind), first + (optind - last), optind, optind, nextchar)
         == Meaning(o, argv, first, last, optind, nextchar)
    ensures |Rotated(argv, first, last, optind)| == |argv| && Rotated(argv, first, last, optind)[0] == argv[0]
  {
    var next := Rotated(argv, first, last, optind);
    var mid := first + (optind - last);
    assert next[optind..] == argv[optind..];
    assert next[1..mid] == argv[1..first] + argv[last..optind];
    assert next[mid..optind] == argv[first..last];
    assert next[optind..optind] == [];
  }

  lemma SkipKeeps(o: Spec, argv: seq<string>, first: nat, optind: nat, nextchar: Option<string>)
    requires WellPlaced(o, argv, first, optind, optind, nextchar) && !InCluster(nextchar)
    requires optind < |argv| && NonOption(argv[optind])
    ensures Meaning(o, argv, first, optind + 1, optind + 1, nextchar) == Meaning(o, argv, first, optind, optind, nextchar)
  {
    assert argv[optind..][1..] == argv[optind + 1..];
    assert argv[first..optind + 1] == argv[first..optind] + [argv[optind]];
    var p := Scan(o, argv[optind + 1..]);
    assert argv[first..optind] + ([argv[optind]] + p.rest) == argv[first..optind + 1] + p.rest;
  }

  /** One event has been reported. */
  predicate Pops(before: Parse, a: Answer, after: Parse) {
    before == Parse([a] + after.events, after.options, after.rest)
  }

  lemma Consumed(o: Spec, argv: seq<string>, first: nat, last: nat, optind: nat, nextchar: Option<string>,
                 a: Answer, n: nat, next: Option<string>)
    requires WellPlaced(o, argv, first, last, optind, nextchar) && !InCluster(next)
    requires 0 < n <= |argv| - optind && Ahead(o, argv[optind..], nextchar) == After(o, [a], n, argv[optind..])
    ensures Pops(Meaning(o, argv, first, last, optind, nextchar), a, Meaning(o, argv, first, last, optind + n, next))
  {
    var p := Scan(o, argv[optind + n..]);
    assert argv[optind..][n..] == argv[optind + n..];
    assert argv[optind..][..n] == argv[optind..optind + n];
    assert argv[last..optind] + (argv[optind..optind + n] + p.options) == argv[last..optind + n] + p.options;
    assert argv[1..first] + argv[last..optind] + (argv[optind..optind + n] + p.options)
        == argv[1..first] + (argv[last..optind] + (argv[optind..optind + n] + p.options));
    assert argv[1..first] + (argv[last..optind + n] + p.options) == argv[1..first] + argv[last..optind + n] + p.options;
  }

  lemma LettersLeft(o: Spec, argv: seq<string>, first: nat, last: nat, optind: nat, letters: string, a: Answer)
    requires WellPlaced(o, argv, first, last, optind, Some(letters)) && |letters| > 1
    requires var next := argv[optind..][1..];
      Cluster(o, letters, next) == ([a] + Cluster(o, letters[1..], next).0, Cluster(o, letters[1..], next).1)
    ensures Pops(Meaning(o, argv, first, last, optind, Some(letters)), a, Meaning(o, argv, first, last, optind, Some(letters[1..])))
  {
    var next := argv[optind..][1..];
    var (events, taken) := Cluster(o, letters[1..], next);
    var p := Scan(o, argv[optind..][if taken then 2 else 1..]);
    assert ([a] + events) + p.events == [a] + (events + p.events);
  }

  /** The global variables of getopt and the vector that it permutes. */
  class Scanner {
    const argv: array<string>
    const spec: Spec
    var optind: nat
    var firstNonopt: nat
    var lastNonopt: nat
    var nextchar: Option<string>

    ghost predicate Valid()
      reads this, argv
    {
      WellPlaced(spec, argv[..], firstNonopt, lastNonopt, optind, nextchar)
    }

    ghost function Meant(): Parse
      requires Valid()
      reads this, argv
    {
      Meaning(spec, argv[..], firstNonopt, lastNonopt, optind, nextchar)
    }

    constructor (argv: array<string>, spec: Spec)
      requires argv.Length >= 1
      ensures this.argv == argv && this.spec == spec && Valid()
      ensures Meant() == Scan(spec, argv[1..])
    {
      this.argv, this.spec := argv, spec;
      optind, firstNonopt, lastNonopt, nextchar := 1, 1, 1, None;
      new;
      assert argv[..][1..] == argv[1..];
    }

    method Exchange()
      requires Valid() && !InCluster(nextchar)
      modifies this`firstNonopt, this`lastNonopt, argv
      ensures argv[..] == Rotated(old(argv[..]), old(firstNonopt), old(lastNonopt), optind)
      ensures firstNonopt == old(firstNonopt) + (optind - old(lastNonopt)) && lastNonopt == optind
      ensures Valid() && Meant() == old(Meant()) && argv[0] == old(argv[0])
    {
      hide Rotated, Meaning, Ahead;
      ExchangeKeeps(spec, argv[..], firstNonopt, lastNonopt, optind, nextchar);
      Rotate(argv, firstNonopt, lastNonopt, optind);
      firstNonopt := firstNonopt + (optind - lastNonopt);
      lastNonopt := optind;
    }

    /** Skipped arguments pile up behind the options. */
    method SkipOthers()
      requires Valid() && !InCluster(nextchar)
      modifies this`optind, this`firstNonopt, this`lastNonopt, argv
      ensures Valid() && Meant() == old(Meant()) && argv[0] == old(argv[0])
      ensures lastNonopt == optind
      ensures optind < argv.Length ==> !NonOption(argv[optind])
    {
      hide Meaning, Rotated;
      if firstNonopt != lastNonopt && lastNonopt != optind {
        Exchange();
      } else if lastNonopt != optind {
        NoneSkipped(spec, argv[..], firstNonopt, optind, nextchar);
        firstNonopt := optind;
      }
      while optind < argv.Length && NonOption(argv[optind])
        invariant WellPlaced(spec, argv[..], firstNonopt, optind, optind, nextchar)
        invariant Meaning(spec, argv[..], firstNonopt, optind, optind, nextchar) == old(Meant())
        invariant argv[0] == old(argv[0])
        decreases argv.Length - optind
      {
        SkipKeeps(spec, argv[..], firstNonopt, optind, nextchar);
        optind := optind + 1;
      }
      lastNonopt := optind;
    }

    /** To the next option; at the end, back over the other arguments. */
    method Advance() returns (more: bool)
      requires Valid() && !InCluster(nextchar)
      modifies this`optind, this`firstNonopt, this`lastNonopt, argv
      ensures argv[0] == old(argv[0])
      ensures more ==> Valid() && Meant() == old(Meant())
      ensures more ==> optind < argv.Length && !NonOption(argv[optind]) && argv[optind] != "--"
      ensures !more ==> 1 <= optind <= argv.Length && old(Meant()) == Parse([], argv[1..optind], argv[optind..])
    {
      SkipOthers();
      if optind != argv.Length && argv[optind] == "--" {
        TakeDashes();
      } else if optind != argv.Length {
        return true;
      } else {
        AllRead(spec, argv[..], firstNonopt, optind, nextchar);
      }
      if firstNonopt != lastNonopt {
        optind := firstNonopt;
      }
      return false;
    }

    /** "--" is put behind the options, and everything else is skipped. */
    method TakeDashes()
      requires Valid() && !InCluster(nextchar) && lastNonopt == optind < argv.Length && argv[optind] == "--"
      modifies this`optind, this`firstNonopt, this`lastNonopt, argv
      ensures argv[0] == old(argv[0])
      ensures optind == lastNonopt == argv.Length && 1 <= firstNonopt <= lastNonopt
      ensures old(Meant()) == Parse([], argv[1..firstNonopt], argv[firstNonopt..])
    {
      hide Meaning, Rotated, Scan;
      DashesRead(spec, argv[..], firstNonopt, optind, nextchar);
      optind := optind + 1;
      if firstNonopt != lastNonopt && lastNonopt != optind {
        Exchange();
      } else if firstNonopt == lastNonopt {
        firstNonopt := optind;
      }
      lastNonopt := argv.Length;
      optind := argv.Length;
    }

    method LongOption() returns (a: Answer)
      requires 1 <= firstNonopt <= lastNonopt <= optind < argv.Length
      requires IsLong(spec, argv[optind]) && !NonOption(argv[optind]) && argv[optind] != "--"
      requires nextchar == Some(argv[optind][2..])
      modifies this`optind, this`nextchar
      ensures a != Done && Valid() && !InCluster(nextchar)
      ensures Pops(Meaning(spec, argv[..], firstNonopt, lastNonopt, old(optind), None), a, Meant())
    {
      hide Search, NamePart, IsMatch, Scan, Meaning;
      ghost var at := optind;
      ScanLong(spec, argv[at..]);
      assert argv[..][at..] == argv[at..] && argv[at..][1..] == argv[at + 1..];
      var text := nextchar.value;
      var name := NamePart(text);
      var m := FindLong(spec.longopts.value, name);
      if m.Found? {
        var hasArg := spec.longopts.value[m.index].hasArg;
        optind := optind + 1;
        if |name| < |text| {
          a := if hasArg != 0 then Long(m.index, Some(text[|name| + 1..])) else Error('?');
        } else if hasArg == 1 {
          if optind < argv.Length {
            a := Long(m.index, Some(argv[optind]));
            optind := optind + 1;
          } else {
            a := Error(MissingCode(spec));
          }
        } else {
          a := Long(m.index, None);
        }
      } else {
        optind := optind + 1;
        a := Error('?');
      }
      nextchar := Some([]);
      Consumed(spec, argv[..], firstNonopt, lastNonopt, at, None, a, optind - at, nextchar);
    }

    method ShortOption() returns (a: Answer)
      requires Valid() && InCluster(nextchar)
      modifies this`optind, this`nextchar
      ensures a != Done && Valid() && Pops(old(Meant()), a, Meant())
    {
      hide ArityOf, Cluster, Scan, MissingCode, Meaning, After;
      ghost var at, letters := optind, nextchar.value;
      OneLetter(spec, letters, argv[at + 1..]);
      assert argv[..][at..] == argv[at..] && argv[at..][1..] == argv[at + 1..];
      var c, rest := nextchar.value[0], nextchar.value[1..];
      var arity := ArityOf(spec, c);
      nextchar := Some(rest);
      if rest == [] {
        optind := optind + 1;
      }
      if arity == Unknown {
        a := Error('?');
      } else if arity == OptionalArgument {
        if rest != [] {
          a := Short(c, Some(rest));
          optind := optind + 1;
        } else {
          a := Short(c, None);
        }
        nextchar := None;
      } else if arity == RequiredArgument {
        if rest != [] {
          a := Short(c, Some(rest));
          optind := optind + 1;
        } else if optind == argv.Length {
          a := Error(MissingCode(spec));
        } else {
          a := Short(c, Some(argv[optind]));
          optind := optind + 1;
        }
        nextchar := None;
      } else {
        a := Short(c, None);
      }
      if InCluster(nextchar) {
        LettersLeft(spec, argv[..], firstNonopt, lastNonopt, at, letters, a);
      } else {
        Consumed(spec, argv[..], firstNonopt, lastNonopt, at, Some(letters), a, optind - at, nextchar);
      }
    }

    /** One call: the next report of the run, or that there is none. */
    method GetOpt() returns (a: Answer)
      requires Valid()
      modifies this`optind, this`firstNonopt, this`lastNonopt, this`nextchar, argv
      ensures argv[0] == old(argv[0])
      ensures a != Done ==> Valid() && Pops(old(Meant()), a, Meant())
      ensures a == Done ==>
        1 <= optind <= argv.Length && old(Meant()) == Parse([], argv[1..optind], argv[optind..])
    {
      if !InCluster(nextchar) {
        var more := Advance();
        if !more {
          return Done;
        }
        ForgetNext(spec, argv[..], firstNonopt, lastNonopt, optind, nextchar);
        if IsLong(spec, argv[optind]) {
          nextchar := Some(argv[optind][2..]);
          a := LongOption();
          return;
        }
        OpenCluster(spec, argv[..], firstNonopt, lastNonopt, optind);
        nextchar := Some(argv[optind][1..]);
      }
      a := ShortOption();
    }

    /** A whole run: every report in order, and then the options with their
        arguments stand in front of all others. */
    method Run() returns (answers: seq<Answer>)
      requires Valid()
      modifies this`optind, this`firstNonopt, this`lastNonopt, this`nextchar, argv
      ensures answers == old(Meant()).events
      ensures argv[..] == [old(argv[0])] + old(Meant()).options + old(Meant()).rest
      ensures optind == 1 + |old(Meant()).options|
    {
      hide Meaning;
      ghost var goal := Meant();
      answers := [];
      var a := GetOpt();
      while a != Done
        invariant argv[0] == old(argv[0])
        invariant a != Done ==> Valid() && goal == Parse(answers + [a] + Meant().events, Meant().options, Meant().rest)
        invariant a == Done ==> 1 <= optind <= argv.Length && goal == Parse(answers, argv[1..optind], argv[optind..])
        decreases a != Done, if a != Done then |Meant().events| else 0
      {
        answers := answers + [a];
        a := GetOpt();
      }
      assert argv[..] == [argv[0]] + argv[1..optind] + argv[optind..];
    }
  }

  method FindLong(longopts: seq<LongOption>, name: string) returns (m: Match)
    ensures m == Search(longopts, name, 0, None, false) && IsMatch(longopts, name, m)
  {
    SearchFinds(longopts, name, 0, None, false);
    var found: Option<nat>, ambig, i := None, false, 0;
    while i < |longopts|
      invariant i <= |longopts|
      invariant Search(longopts, name, 0, None, false) == Search(longopts, name, i, found, ambig)
    {
      if name <= longopts[i].name {
        if |name| == |longopts[i].name| {
          return Found(i);
        } else if found.None? {
          found := Some(i);
        } else {
          ambig := true;
        }
      }
      i := i + 1;
    }
    return if ambig then Ambiguous else if found.Some? then Found(found.value) else NotFound;
  }

  /** What one letter contributes to its cluster. */
  lemma OneLetter(o: Spec, letters: string, next: seq<string>)
    requires letters != []
    ensures
      var c, rest := letters[0], letters[1..];
      var all, more := Cluster(o, letters, next), Cluster(o, rest, next);
      match ArityOf(o, c)
      case Unknown => all == ([Error('?')] + more.0, more.1) && (rest == [] ==> all == ([Error('?')], false))
      case NoArgument => all == ([Short(c, None)] + more.0, more.1) && (rest == [] ==> all == ([Short(c, None)], false))
      case OptionalArgument => all == ([Short(c, if rest != [] then Some(rest) else None)], false)
      case RequiredArgument =>
        if rest != [] then all == ([Short(c, Some(rest))], false)
        else if next == [] then all == ([Error(MissingCode(o))], false)
        else all == ([Short(c, Some(next[0]))], true)
  {
    if letters[1..] == [] {
      assert Cluster(o, letters[1..], next) == ([], false);
      assert forall a: Answer :: [a] + [] == [a];
    }
  }

  lemma ScanLong(o: Spec, args: seq<string>)
    requires args != [] && IsLong(o, args[0]) && !NonOption(args[0]) && args[0] != "--"
    ensures
      var (a, taken) := LongElement(o, args[0][2..], args[1..]);
      Scan(o, args) == After(o, [a], if taken then 2 else 1, args)
  {
  }

  lemma ForgetNext(o: Spec, argv: seq<string>, first: nat, last: nat, optind: nat, nextchar: Option<string>)
    requires WellPlaced(o, argv, first, last, optind, nextchar) && !InCluster(nextchar)
    ensures Meaning(o, argv, first, last, optind, nextchar) == Meaning(o, argv, first, last, optind, None)
  {
  }

  lemma OpenCluster(o: Spec, argv: seq<string>, first: nat, last: nat, optind: nat)
    requires WellPlaced(o, argv, first, last, optind, None)
    requires optind < |argv| && !NonOption(argv[optind]) && argv[optind] != "--" && !IsLong(o, argv[optind])
    ensures WellPlaced(o, argv, first, last, optind, Some(argv[optind][1..]))
    ensures Meaning(o, argv, first, last, optind, Some(argv[optind][1..])) == Meaning(o, argv, first, last, optind, None)
  {
  }

  lemma AllRead(o: Spec, argv: seq<string>, first: nat, optind: nat, nextchar: Option<string>)
    requires WellPlaced(o, argv, first, optind, optind, nextchar) && !InCluster(nextchar) && optind == |argv|
    ensures Meaning(o, argv, first, optind, optind, nextchar) == Parse([], argv[1..first], argv[first..])
  {
    assert argv[optind..] == [];
    assert argv[first..optind] + [] == argv[first..];
  }

  lemma DashesRead(o: Spec, argv: seq<string>, first: nat, optind: nat, nextchar: Option<string>)
    requires WellPlaced(o, argv, first, optind, optind, nextchar) && !InCluster(nextchar)
    requires optind < |argv| && argv[optind] == "--"
    ensures
      var after := Rotated(argv, first, optind, optind + 1);
      && Meaning(o, argv, first, optind, optind, nextchar) == Parse([], after[1..first + 1], after[first + 1..])
      && (first == optind ==> after == argv)
      && after[0] == argv[0]
  {
    var after := Rotated(argv, first, optind, optind + 1);
    assert argv[optind..][1..] == argv[optind + 1..];
    assert argv[1..first] + argv[optind..optind] + [argv[optind]] == after[1..first + 1];
    assert argv[first..optind] + argv[optind + 1..] == after[first + 1..];
  }

  lemma NoneSkipped(o: Spec, argv: seq<string>, first: nat, optind: nat, nextchar: Option<string>)
    requires WellPlaced(o, argv, first, first, optind, nextchar)
    ensures Meaning(o, argv, optind, optind, optind, nextchar) == Meaning(o, argv, first, first, optind, nextchar)
  {
    assert argv[1..first] + argv[first..optind] == argv[1..optind] + argv[optind..optind];
    assert argv[first..first] == argv[optind..optind] == [];
  }

  /** Calling getopt until it has no more to report. */
  method GetAll(argv: array<string>, spec: Spec) returns (answers: seq<Answer>, optind: nat)
    requires argv.Length >= 1
    modifies argv
    ensures
      var p := Scan(spec, old(argv[1..]));
      answers == p.events && argv[..] == [old(argv[0])] + p.options + p.rest && optind == 1 + |p.options|
    ensures 1 <= optind <= argv.Length && Interleaves(old(argv[1..]), argv[1..optind], argv[optind..])
  {
    hide Scan, Interleaves, Meaning, WellPlaced;
    ghost var p := Scan(spec, argv[1..]);
    ScanIsStable(spec, argv[1..]);
    var scanner := new Scanner(argv, spec);
    answers := scanner.Run();
    optind := scanner.optind;
    assert argv[1..optind] == p.options && argv[optind..] == p.rest;
  }
}
