/** The part of rpcgen that writes the routine for a struct
    (tools/sunrpc-4.0/rpc_cout.c): with XDR_INLINE for runs of basic fields it does
    what the plain sequence of filter calls does. */
module RpcInline {
  import opened Options

  // Declarations

  datatype Relation = Vector | Array | Pointer | Alias

  datatype Decl = Decl(prefix: Option<string>, typ: string, rel: Relation, name: string, arrayMax: string)

  const BASIC_TYPES: seq<string> := ["int", "long", "short", "bool", "u_int", "u_long", "u_short"]

  /** Words that the basic type takes, if it is one. */
  function FindType(typ: string): Option<nat> {
    if typ in BASIC_TYPES then Some(1) else None
  }

  predicate Basic(d: Decl) {
    d.prefix.None? && FindType(d.typ).Some? && (d.rel == Alias || d.rel == Vector)
  }

  function Length(d: Decl): nat {
    match FindType(d.typ) case None => 0 case Some(n) => n
  }

  // The code that is written

  datatype Flag = PUT | GET

  /** A number of words: a constant, and products of an array size and a length. */
  datatype Size = Size(words: nat, terms: seq<(string, nat)>)

  /** A filter call; IXDR macros for a field, once or for each element; and a request
      for a buffer with what is done without and with it. */
  datatype Stmt =
    | Filter(d: Decl)
    | Ixdr(flag: Flag, d: Decl)
    | IxdrEach(flag: Flag, d: Decl)
    | Request(size: Size, whole: seq<Stmt>, inlined: seq<Stmt>)

  /** One list for all operations, or one for each. */
  datatype Code = Same(all: seq<Stmt>) | ByOp(encode: seq<Stmt>, decode: seq<Stmt>, free: seq<Stmt>)

  function PrintStats(run: seq<Decl>): seq<Stmt> {
    if run == [] then [] else [Filter(run[0])] + PrintStats(run[1..])
  }

  function EmitInline(d: Decl, flag: Flag): Stmt {
    if d.rel == Alias then Ixdr(flag, d) else IxdrEach(flag, d)
  }

  function EmitInlines(run: seq<Decl>, flag: Flag): seq<Stmt> {
    if run == [] then [] else [EmitInline(run[0], flag)] + EmitInlines(run[1..], flag)
  }

  function SizeOf(run: seq<Decl>): Size {
    if run == [] then Size(0, [])
    else
      var d, z := run[|run| - 1], SizeOf(run[..|run| - 1]);
      if d.rel == Alias then Size(z.words + Length(d), z.terms) else Size(z.words, z.terms + [(d.arrayMax, Length(d))])
  }

  /** A run of basic fields, inlined if it has a vector or enough words. */
  function Group(run: seq<Decl>, flag: Flag, inlineflag: int): seq<Stmt> {
    var z := SizeOf(run);
    if run == [] then []
    else if z.terms == [] && z.words < inlineflag then PrintStats(run)
    else [Request(z, PrintStats(run), EmitInlines(run, flag))]
  }

  /** What is written for `decls` when the basic fields of `run` are pending. */
  function Inlined(decls: seq<Decl>, run: seq<Decl>, flag: Flag, inlineflag: int): seq<Stmt>
    decreases |decls|
  {
    if decls == [] then Group(run, flag, inlineflag)
    else if Basic(decls[0]) then Inlined(decls[1..], run + [decls[0]], flag, inlineflag)
    else Group(run, flag, inlineflag) + [Filter(decls[0])] + Inlined(decls[1..], [], flag, inlineflag)
  }

  // What the code does

  type Word = int

  datatype Op = Encode | Decode | Free

  /** The words of the object by field and index; the stream, which is what has been
      written or what is left to read; and the room left for writing. */
  datatype State = State(obj: map<(string, nat), Word>, words: seq<Word>, room: nat)

  datatype Outcome = Done(s: State) | Failed | Overrun

  /** What the program cannot know: the values of the array sizes, what the filters of
      other types do, when a buffer is granted, and what it holds at first. */
  datatype Env = Env(
    value: string -> nat,
    other: (Op, Decl, State) -> Option<State>,
    grants: (Op, State, nat) -> bool,
    junk: nat -> Word)

  function Fetch(obj: map<(string, nat), Word>, name: string, i: nat): Word {
    if (name, i) in obj then obj[(name, i)] else 0
  }

  function Count(env: Env, d: Decl): nat {
    if d.rel == Vector then env.value(d.arrayMax) else 1
  }

  /** The filter of a basic type, once for each element. */
  function Elements(op: Op, name: string, i: nat, n: nat, s: State): Outcome
    decreases n - i
  {
    if i >= n || op == Free then Done(s)
    else if op == Encode then
      if s.room == 0 then Failed
      else Elements(op, name, i + 1, n, s.(words := s.words + [Fetch(s.obj, name, i)], room := s.room - 1))
    else
      if s.words == [] then Failed
      else Elements(op, name, i + 1, n, s.(obj := s.obj[(name, i) := s.words[0]], words := s.words[1..]))
  }

  function RunFilter(env: Env, op: Op, d: Decl, s: State): Outcome {
    if Basic(d) then Elements(op, d.name, 0, Count(env, d), s)
    else match env.other(op, d, s) case None => Failed case Some(t) => Done(t)
  }

  /** What the routine without any inlining does. */
  function Plain(env: Env, op: Op, decls: seq<Decl>, s: State): Outcome
    decreases |decls|
  {
    if decls == [] then Done(s)
    else match RunFilter(env, op, decls[0], s)
      case Done(t) => Plain(env, op, decls[1..], t)
      case Failed => Failed
      case Overrun => Overrun
  }

  /** The object, the buffer and how far it is used. */
  datatype Inline = Inline(obj: map<(string, nat), Word>, buf: seq<Word>, pos: nat)

  /** IXDR macros; none may go over the end of the buffer. */
  function Macros(flag: Flag, name: string, i: nat, n: nat, b: Inline): Option<Inline>
    decreases n - i
  {
    if i >= n then Some(b)
    else if b.pos >= |b.buf| then None
    else
      var next := if flag == PUT then b.(buf := b.buf[b.pos := Fetch(b.obj, name, i)]) else b.(obj := b.obj[(name, i) := b.buf[b.pos]]);
      Macros(flag, name, i + 1, n, next.(pos := b.pos + 1))
  }

  function RunInlined(env: Env, stmts: seq<Stmt>, b: Inline): Option<Inline>
    decreases |stmts|
  {
    if stmts == [] then Some(b)
    else
      var next := match stmts[0]
        case Ixdr(flag, d) => Macros(flag, d.name, 0, 1, b)
        case IxdrEach(flag, d) => Macros(flag, d.name, 0, env.value(d.arrayMax), b)
        case _ => None;
      match next case None => None case Some(t) => RunInlined(env, stmts[1..], t)
  }

  function Sum(env: Env, terms: seq<(string, nat)>): nat {
    if terms == [] then 0
    else Sum(env, terms[..|terms| - 1]) + env.value(terms[|terms| - 1].0) * terms[|terms| - 1].1
  }

  function Words(env: Env, z: Size): nat {
    z.words + Sum(env, z.terms)
  }

  /** A buffer is part of the stream, so it is granted only where there is enough. */
  predicate Granted(env: Env, op: Op, s: State, n: nat) {
    match op
    case Encode => n <= s.room && env.grants(op, s, n)
    case Decode => n <= |s.words| && env.grants(op, s, n)
    case Free => false
  }

  function Run(env: Env, op: Op, stmts: seq<Stmt>, s: State): Outcome
    decreases stmts
  {
    if stmts == [] then Done(s)
    else match RunStmt(env, op, stmts[0], s)
      case Done(t) => Run(env, op, stmts[1..], t)
      case Failed => Failed
      case Overrun => Overrun
  }

  function RunStmt(env: Env, op: Op, stmt: Stmt, s: State): Outcome
    decreases stmt
  {
    match stmt
    case Filter(d) => RunFilter(env, op, d, s)
    case Ixdr(_, _) => Overrun
    case IxdrEach(_, _) => Overrun
    case Request(size, whole, inlined) =>
      var n := Words(env, size);
      if !Granted(env, op, s, n) then Run(env, op, whole, s)
      else if op == Encode then
        match RunInlined(env, inlined, Inline(s.obj, seq(n, i requires 0 <= i => env.junk(i)), 0))
        case None => Overrun
        case Some(b) => Done(State(b.obj, s.words + b.buf, s.room - n))
      else
        match RunInlined(env, inlined, Inline(s.obj, s.words[..n], 0))
        case None => Overrun
        case Some(b) => Done(State(b.obj, s.words[n..], s.room))
  }

  function RunCode(env: Env, op: Op, code: Code, s: State): Outcome {
    match code
    case Same(all) => Run(env, op, all, s)
    case ByOp(encode, decode, free) => Run(env, op, match op case Encode => encode case Decode => decode case Free => free, s)
  }

  // A request asks for what its macros use

  predicate AllBasic(run: seq<Decl>) {
    forall d <- run :: Basic(d)
  }

  function Total(env: Env, run: seq<Decl>): nat {
    if run == [] then 0 else Count(env, run[0]) + Total(env, run[1..])
  }

  lemma {:induction false} TotalAppend(env: Env, run: seq<Decl>, d: Decl)
    ensures Total(env, run + [d]) == Total(env, run) + Count(env, d)
  {
    if run != [] {
      assert (run + [d])[1..] == run[1..] + [d];
      TotalAppend(env, run[1..], d);
    } else {
      assert (run + [d])[1..] == [];
    }
  }

  lemma SumAppend(env: Env, terms: seq<(string, nat)>, max: string, n: nat)
    ensures Sum(env, terms + [(max, n)]) == Sum(env, terms) + env.value(max) * n
  {
    assert (terms + [(max, n)])[..|terms|] == terms;
  }

  lemma BasicTakesOne(d: Decl)
    requires Basic(d)
    ensures Length(d) == 1 && (d.rel == Alias || d.rel == Vector)
  {
  }

  lemma {:induction false} SizeIsTotal(env: Env, run: seq<Decl>)
    requires AllBasic(run)
    ensures Words(env, SizeOf(run)) == Total(env, run)
  {
    hide Basic, FindType, Length;
    if run != [] {
      var front, d := run[..|run| - 1], run[|run| - 1];
      assert run == front + [d];
      BasicTakesOne(d);
      SizeIsTotal(env, front);
      TotalAppend(env, front, d);
      SumAppend(env, SizeOf(front).terms, d.arrayMax, 1);
    }
  }

  // Macros and filters side by side

  predicate Matches(op: Op, flag: Flag) {
    if flag == PUT then op == Encode else op == Decode
  }

  /** The filters have written what the buffer holds up to here, or have read it. */
  predicate Aligned(op: Op, base: seq<Word>, tail: seq<Word>, room: nat, s: State, b: Inline) {
    && b.pos <= |b.buf| && s.obj == b.obj
    && (op == Encode ==> |b.buf| <= room && s.words == base + b.buf[..b.pos] && s.room == room - b.pos)
    && (op == Decode ==> s.words == b.buf[b.pos..] + tail && s.room == room)
  }

  lemma {:induction false} MacrosAgree(op: Op, flag: Flag, name: string, i: nat, n: nat, s: State, b: Inline,
                                       base: seq<Word>, tail: seq<Word>, room: nat)
    requires Matches(op, flag) && Aligned(op, base, tail, room, s, b)
    requires i <= n && b.pos + (n - i) <= |b.buf|
    ensures
      var m, e := Macros(flag, name, i, n, b), Elements(op, name, i, n, s);
      && m.Some? && |m.value.buf| == |b.buf| && m.value.pos == b.pos + (n - i)
      && e.Done? && Aligned(op, base, tail, room, e.s, m.value)
    decreases n - i
  {
    if i < n {
      if op == Encode {
        var w := Fetch(b.obj, name, i);
        var next := Inline(b.obj, b.buf[b.pos := w], b.pos + 1);
        assert next.buf[..b.pos + 1] == b.buf[..b.pos] + [w];
        assert base + b.buf[..b.pos] + [w] == base + (b.buf[..b.pos] + [w]);
        MacrosAgree(op, flag, name, i + 1, n, State(s.obj, s.words + [w], s.room - 1), next, base, tail, room);
      } else {
        var w := b.buf[b.pos];
        var next := Inline(b.obj[(name, i) := w], b.buf, b.pos + 1);
        assert s.words[0] == w && s.words[1..] == b.buf[b.pos + 1..] + tail;
        MacrosAgree(op, flag, name, i + 1, n, State(next.obj, s.words[1..], s.room), next, base, tail, room);
      }
    }
  }

  lemma {:induction false} RunAgrees(env: Env, op: Op, flag: Flag, run: seq<Decl>, s: State, b: Inline,
                                     base: seq<Word>, tail: seq<Word>, room: nat)
    requires AllBasic(run) && Matches(op, flag) && Aligned(op, base, tail, room, s, b)
    requires b.pos + Total(env, run) == |b.buf|
    ensures
      var m, e := RunInlined(env, EmitInlines(run, flag), b), Plain(env, op, run, s);
      && m.Some? && |m.value.buf| == |b.buf| && m.value.pos == |b.buf|
      && e.Done? && Aligned(op, base, tail, room, e.s, m.value)
    decreases |run|
  {
    hide Aligned, Macros, Elements;
    if run != [] {
      var d := run[0];
      assert Basic(d);
      var n := Count(env, d);
      MacrosAgree(op, flag, d.name, 0, n, s, b, base, tail, room);
      var rest := EmitInlines(run, flag);
      assert rest[1..] == EmitInlines(run[1..], flag);
      RunAgrees(env, op, flag, run[1..], Elements(op, d.name, 0, n, s).s, Macros(flag, d.name, 0, n, b).value, base, tail, room);
    }
  }

  lemma {:induction false} PrintStatsPlain(env: Env, op: Op, run: seq<Decl>, s: State)
    ensures Run(env, op, PrintStats(run), s) == Plain(env, op, run, s)
    decreases |run|
  {
    hide RunFilter;
    if run != [] {
      assert PrintStats(run)[1..] == PrintStats(run[1..]);
      var first := RunFilter(env, op, run[0], s);
      if first.Done? {
        PrintStatsPlain(env, op, run[1..], first.s);
      }
    }
  }

  /** With the buffer or without, a request does what the filters do. */
  lemma RequestAgrees(env: Env, op: Op, flag: Flag, run: seq<Decl>, s: State)
    requires AllBasic(run) && Matches(op, flag)
    ensures RunStmt(env, op, Request(SizeOf(run), PrintStats(run), EmitInlines(run, flag)), s) == Plain(env, op, run, s)
  {
    hide SizeOf, Words, RunInlined, Plain;
    SizeIsTotal(env, run);
    PrintStatsPlain(env, op, run, s);
    var n := Words(env, SizeOf(run));
    if Granted(env, op, s, n) {
      if op == Encode {
        var b := Inline(s.obj, seq(n, i requires 0 <= i => env.junk(i)), 0);
        assert s.words + b.buf[..0] == s.words;
        RunAgrees(env, op, flag, run, s, b, s.words, [], s.room);
        var m := RunInlined(env, EmitInlines(run, flag), b).value;
        assert m.buf[..|m.buf|] == m.buf;
      } else {
        var b := Inline(s.obj, s.words[..n], 0);
        assert b.buf[0..] + s.words[n..] == s.words;
        RunAgrees(env, op, flag, run, s, b, [], s.words[n..], s.room);
        var m := RunInlined(env, EmitInlines(run, flag), b).value;
        assert m.buf[|m.buf|..] + s.words[n..] == s.words[n..];
      }
    }
  }

  // The whole routine

  function Then(env: Env, op: Op, o: Outcome, decls: seq<Decl>): Outcome {
    if o.Done? then Plain(env, op, decls, o.s) else o
  }

  lemma {:induction false} PlainAppend(env: Env, op: Op, a: seq<Decl>, b: seq<Decl>, s: State)
    ensures Plain(env, op, a + b, s) == Then(env, op, Plain(env, op, a, s), b)
    decreases |a|
  {
    hide RunFilter;
    if a == [] {
      assert a + b == b;
    } else {
      assert (a + b)[1..] == a[1..] + b;
      var first := RunFilter(env, op, a[0], s);
      if first.Done? {
        PlainAppend(env, op, a[1..], b, first.s);
      }
    }
  }

  lemma {:induction false} RunAppend(env: Env, op: Op, a: seq<Stmt>, b: seq<Stmt>, s: State)
    ensures
      var o := Run(env, op, a, s);
      Run(env, op, a + b, s) == if o.Done? then Run(env, op, b, o.s) else o
    decreases |a|
  {
    hide RunStmt;
    if a == [] {
      assert a + b == b;
    } else {
      assert (a + b)[1..] == a[1..] + b;
      var first := RunStmt(env, op, a[0], s);
      if first.Done? {
        RunAppend(env, op, a[1..], b, first.s);
      }
    }
  }

  lemma GroupAgrees(env: Env, op: Op, flag: Flag, run: seq<Decl>, inlineflag: int, s: State)
    requires AllBasic(run) && Matches(op, flag)
    ensures Run(env, op, Group(run, flag, inlineflag), s) == Plain(env, op, run, s)
  {
    hide RunStmt, Plain, SizeOf, PrintStats;
    PrintStatsPlain(env, op, run, s);
    if run == [] {
      assert Plain(env, op, run, s) == Done(s) by { PlainNothing(env, op, s); }
    } else {
      RequestAgrees(env, op, flag, run, s);
      RunOne(env, op, Request(SizeOf(run), PrintStats(run), EmitInlines(run, flag)), s);
    }
  }

  lemma PlainNothing(env: Env, op: Op, s: State)
    ensures Plain(env, op, [], s) == Done(s)
  {
  }

  lemma RunOne(env: Env, op: Op, stmt: Stmt, s: State)
    ensures Run(env, op, [stmt], s) == RunStmt(env, op, stmt, s)
  {
    hide RunStmt;
    assert [stmt][1..] == [];
  }

  lemma PlainOne(env: Env, op: Op, d: Decl, s: State)
    ensures Plain(env, op, [d], s) == RunFilter(env, op, d, s)
    ensures RunStmt(env, op, Filter(d), s) == RunFilter(env, op, d, s)
  {
    hide RunFilter;
    assert [d][1..] == [];
  }

  lemma {:induction false} InlinedAgrees(env: Env, op: Op, flag: Flag, decls: seq<Decl>, run: seq<Decl>, inlineflag: int, s: State)
    requires AllBasic(run) && Matches(op, flag)
    ensures Run(env, op, Inlined(decls, run, flag, inlineflag), s) == Plain(env, op, run + decls, s)
    decreases |decls|
  {
    hide Run, RunStmt, Plain, Group;
    if decls == [] {
      assert run + decls == run;
      GroupAgrees(env, op, flag, run, inlineflag, s);
    } else if Basic(decls[0]) {
      assert run + [decls[0]] + decls[1..] == run + decls;
      InlinedAgrees(env, op, flag, decls[1..], run + [decls[0]], inlineflag, s);
    } else {
      var d, rest := decls[0], Inlined(decls[1..], [], flag, inlineflag);
      var group := Group(run, flag, inlineflag);
      GroupAgrees(env, op, flag, run, inlineflag, s);
      assert group + [Filter(d)] + rest == group + ([Filter(d)] + rest);
      RunAppend(env, op, group, [Filter(d)] + rest, s);
      assert run + decls == run + ([d] + decls[1..]);
      PlainAppend(env, op, run, [d] + decls[1..], s);
      var t := Plain(env, op, run, s);
      if t.Done? {
        RunAppend(env, op, [Filter(d)], rest, t.s);
        PlainAppend(env, op, [d], decls[1..], t.s);
        RunOne(env, op, Filter(d), t.s);
        PlainOne(env, op, d, t.s);
        var u := RunFilter(env, op, d, t.s);
        if u.Done? {
          InlinedAgrees(env, op, flag, decls[1..], [], inlineflag, u.s);
          assert [] + decls[1..] == decls[1..];
        }
      }
    }
  }

  /** The first pass: is any inlining worth while?  `words` is the size of the run of
      single fields so far. */
  predicate Worth(decls: seq<Decl>, words: nat, inlineflag: int) {
    if decls == [] then words > inlineflag
    else if Basic(decls[0]) then decls[0].rel == Vector || Worth(decls[1..], words + Length(decls[0]), inlineflag)
    else words >= inlineflag || Worth(decls[1..], 0, inlineflag)
  }

  function Written(decls: seq<Decl>, inlineflag: int): Code {
    if inlineflag == 0 || !Worth(decls, 0, inlineflag) then Same(PrintStats(decls))
    else ByOp(Inlined(decls, [], PUT, inlineflag), Inlined(decls, [], GET, inlineflag), PrintStats(decls))
  }

  /** Whatever the fields, the threshold, the operation and the buffers granted: the
      routine does what the filters of the fields do one after the other. */
  lemma WrittenAgrees(env: Env, op: Op, decls: seq<Decl>, inlineflag: int, s: State)
    ensures RunCode(env, op, Written(decls, inlineflag), s) == Plain(env, op, decls, s)
  {
    hide Run, Plain, PrintStats, Inlined, Worth;
    PrintStatsPlain(env, op, decls, s);
    assert [] + decls == decls;
    if op == Encode {
      InlinedAgrees(env, op, PUT, decls, [], inlineflag, s);
    } else if op == Decode {
      InlinedAgrees(env, op, GET, decls, [], inlineflag, s);
    }
  }

  lemma {:induction false} PlainStaysInside(env: Env, op: Op, decls: seq<Decl>, s: State)
    ensures !Plain(env, op, decls, s).Overrun?
    decreases |decls|
  {
    if decls != [] {
      FilterStaysInside(env, op, decls[0], s);
      hide RunFilter;
      var first := RunFilter(env, op, decls[0], s);
      if first.Done? {
        PlainStaysInside(env, op, decls[1..], first.s);
      }
    }
  }

  lemma FilterStaysInside(env: Env, op: Op, d: Decl, s: State)
    ensures !RunFilter(env, op, d, s).Overrun?
  {
    if Basic(d) {
      ElementsStayInside(op, d.name, 0, Count(env, d), s);
    }
  }

  lemma {:induction false} ElementsStayInside(op: Op, name: string, i: nat, n: nat, s: State)
    ensures !Elements(op, name, i, n, s).Overrun?
    decreases n - i
  {
    if i < n {
      if op == Encode && s.room > 0 {
        ElementsStayInside(op, name, i + 1, n, s.(words := s.words + [Fetch(s.obj, name, i)], room := s.room - 1));
      } else if op == Decode && s.words != [] {
        ElementsStayInside(op, name, i + 1, n, s.(obj := s.obj[(name, i) := s.words[0]], words := s.words[1..]));
      }
    }
  }

  /** No IXDR macro ever works outside its buffer. */
  lemma NeverOverruns(env: Env, op: Op, decls: seq<Decl>, inlineflag: int, s: State)
    ensures !RunCode(env, op, Written(decls, inlineflag), s).Overrun?
  {
    WrittenAgrees(env, op, decls, inlineflag, s);
    PlainStaysInside(env, op, decls, s);
  }

  // The text itself

  /** The fields that are handled, in order, given which requests are granted. */
  function Handled(stmts: seq<Stmt>, granted: Size -> bool): seq<Decl>
    decreases stmts
  {
    if stmts == [] then []
    else
      var first := match stmts[0]
        case Filter(d) => [d]
        case Ixdr(_, d) => [d]
        case IxdrEach(_, d) => [d]
        case Request(size, whole, inlined) => if granted(size) then Handled(inlined, granted) else Handled(whole, granted);
      first + Handled(stmts[1..], granted)
  }

  lemma {:induction false} HandledAppend(a: seq<Stmt>, b: seq<Stmt>, granted: Size -> bool)
    ensures Handled(a + b, granted) == Handled(a, granted) + Handled(b, granted)
    decreases |a|
  {
    if a == [] {
      assert a + b == b;
    } else {
      hide Handled;
      assert (a + b)[1..] == a[1..] + b && (a + b)[0] == a[0];
      HandledAppend(a[1..], b, granted);
      HandledStep(a, granted);
      HandledStep(a + b, granted);
      Associate(Handled([a[0]], granted), Handled(a[1..], granted), Handled(b, granted));
    }
  }

  lemma Associate(x: seq<Decl>, y: seq<Decl>, z: seq<Decl>)
    ensures x + (y + z) == x + y + z
  {
  }

  lemma HandledStep(a: seq<Stmt>, granted: Size -> bool)
    requires a != []
    ensures Handled(a, granted) == Handled([a[0]], granted) + Handled(a[1..], granted)
  {
    assert [a[0]][1..] == [];
  }

  lemma {:induction false} RunHandled(run: seq<Decl>, flag: Flag, granted: Size -> bool)
    ensures Handled(PrintStats(run), granted) == run && Handled(EmitInlines(run, flag), granted) == run
    decreases |run|
  {
    if run != [] {
      RunHandled(run[1..], flag, granted);
      assert PrintStats(run)[1..] == PrintStats(run[1..]) && EmitInlines(run, flag)[1..] == EmitInlines(run[1..], flag);
      assert run == [run[0]] + run[1..];
    }
  }

  lemma GroupHandled(run: seq<Decl>, flag: Flag, inlineflag: int, granted: Size -> bool)
    ensures Handled(Group(run, flag, inlineflag), granted) == run
  {
    hide SizeOf, PrintStats, EmitInlines;
    RunHandled(run, flag, granted);
    var group := Group(run, flag, inlineflag);
    assert group != [] ==> group[1..] == [] || group == PrintStats(run);
  }

  lemma FilterHandled(d: Decl, granted: Size -> bool)
    ensures Handled([Filter(d)], granted) == [d]
  {
    assert [Filter(d)][1..] == [];
  }

  /** Each field is handled exactly once, in the order of declaration. */
  lemma {:induction false} HandledOnce(decls: seq<Decl>, run: seq<Decl>, flag: Flag, inlineflag: int, granted: Size -> bool)
    ensures Handled(Inlined(decls, run, flag, inlineflag), granted) == run + decls
    decreases |decls|
  {
    hide Group, Basic, Handled;
    GroupHandled(run, flag, inlineflag, granted);
    var group := Group(run, flag, inlineflag);
    if decls == [] {
      assert run + decls == run;
    } else if Basic(decls[0]) {
      HandledOnce(decls[1..], run + [decls[0]], flag, inlineflag, granted);
      assert run + [decls[0]] + decls[1..] == run + decls;
    } else {
      var d, rest := decls[0], Inlined(decls[1..], [], flag, inlineflag);
      HandledOnce(decls[1..], [], flag, inlineflag, granted);
      HandledAppend(group + [Filter(d)], rest, granted);
      HandledAppend(group, [Filter(d)], granted);
      FilterHandled(d, granted);
      assert run + [d] + ([] + decls[1..]) == run + decls;
    }
  }

  /** The words that macros use. */
  function Used(env: Env, stmts: seq<Stmt>): nat {
    if stmts == [] then 0
    else
      (match stmts[0] case Ixdr(_, _) => 1 case IxdrEach(_, d) => env.value(d.arrayMax) case _ => 0) + Used(env, stmts[1..])
  }

  predicate RequestsExact(env: Env, stmts: seq<Stmt>) {
    stmts == [] ||
    ((stmts[0].Request? ==> Words(env, stmts[0].size) == Used(env, stmts[0].inlined)) && RequestsExact(env, stmts[1..]))
  }

  lemma {:induction false} ExactAppend(env: Env, a: seq<Stmt>, b: seq<Stmt>)
    requires RequestsExact(env, a) && RequestsExact(env, b)
    ensures RequestsExact(env, a + b)
    decreases |a|
  {
    if a == [] {
      assert a + b == b;
    } else {
      assert (a + b)[1..] == a[1..] + b;
      ExactAppend(env, a[1..], b);
    }
  }

  lemma {:induction false} RunExact(env: Env, run: seq<Decl>, flag: Flag)
    requires AllBasic(run)
    ensures RequestsExact(env, PrintStats(run)) && Used(env, EmitInlines(run, flag)) == Total(env, run)
    decreases |run|
  {
    hide FindType;
    if run != [] {
      assert Basic(run[0]);
      RunExact(env, run[1..], flag);
      assert PrintStats(run)[1..] == PrintStats(run[1..]) && EmitInlines(run, flag)[1..] == EmitInlines(run[1..], flag);
    }
  }

  /** Each request is for exactly the words that its macros use. */
  lemma {:induction false} InlinedExact(env: Env, decls: seq<Decl>, run: seq<Decl>, flag: Flag, inlineflag: int)
    requires AllBasic(run)
    ensures RequestsExact(env, Inlined(decls, run, flag, inlineflag))
    decreases |decls|
  {
    hide SizeOf, PrintStats, EmitInlines, Words;
    RunExact(env, run, flag);
    SizeIsTotal(env, run);
    var group := Group(run, flag, inlineflag);
    assert RequestsExact(env, group) by {
      assert group != [] ==> RequestsExact(env, group[1..]) || group == PrintStats(run);
    }
    if decls != [] {
      if Basic(decls[0]) {
        InlinedExact(env, decls[1..], run + [decls[0]], flag, inlineflag);
      } else {
        hide Group;
        InlinedExact(env, decls[1..], [], flag, inlineflag);
        assert RequestsExact(env, [Filter(decls[0])]) by { assert [Filter(decls[0])][1..] == []; }
        ExactAppend(env, group, [Filter(decls[0])]);
        ExactAppend(env, group + [Filter(decls[0])], Inlined(decls[1..], [], flag, inlineflag));
      }
    }
  }

  // The loops of the generator

  method PrintRun(decls: seq<Decl>, from: nat, dl: nat) returns (out: seq<Stmt>)
    requires from <= dl <= |decls|
    ensures out == PrintStats(decls[from..dl])
  {
    var cur := from;
    out := [];
    while cur != dl
      invariant from <= cur <= dl
      invariant out + PrintStats(decls[cur..dl]) == PrintStats(decls[from..dl])
      decreases dl - cur
    {
      assert decls[cur..dl][1..] == decls[cur + 1..dl];
      out := out + [Filter(decls[cur])];
      cur := cur + 1;
    }
  }

  method InlineRun(decls: seq<Decl>, from: nat, dl: nat, flag: Flag) returns (out: seq<Stmt>)
    requires from <= dl <= |decls|
    ensures out == EmitInlines(decls[from..dl], flag)
  {
    hide EmitInline;
    var cur := from;
    out := [];
    while cur != dl
      invariant from <= cur <= dl
      invariant out + EmitInlines(decls[cur..dl], flag) == EmitInlines(decls[from..dl], flag)
      decreases dl - cur
    {
      assert decls[cur..dl][1..] == decls[cur + 1..dl];
      InlineOneMore(out, decls[cur..dl], flag);
      out := out + [EmitInline(decls[cur], flag)];
      cur := cur + 1;
    }
  }

  lemma InlineOneMore(out: seq<Stmt>, run: seq<Decl>, flag: Flag)
    requires run != []
    ensures out + EmitInlines(run, flag) == out + [EmitInline(run[0], flag)] + EmitInlines(run[1..], flag)
  {
  }

  /** The fields that are pending when another one or the end of the list comes. */
  method CloseRun(decls: seq<Decl>, cur: nat, dl: nat, i: nat, size: Size, flag: Flag, inlineflag: int) returns (out: seq<Stmt>)
    requires dl <= |decls| && (i > 0 ==> cur + i == dl)
    requires size == SizeOf(if i > 0 then decls[cur..dl] else [])
    ensures out == Group(if i > 0 then decls[cur..dl] else [], flag, inlineflag)
  {
    out := [];
    if i > 0 {
      var whole := PrintRun(decls, cur, dl);
      if size.terms == [] && size.words < inlineflag {
        out := whole;
      } else {
        var inlined := InlineRun(decls, cur, dl, flag);
        out := [Request(size, whole, inlined)];
      }
    }
  }

  /** inline_struct: collects runs of basic fields and their size. */
  method InlineStruct(decls: seq<Decl>, flag: Flag, inlineflag: int) returns (out: seq<Stmt>)
    ensures out == Inlined(decls, [], flag, inlineflag)
  {
    hide SizeOf, Group, FindType, Length, Inlined;
    out := [];
    var i: nat, cur: nat, dl: nat, size := 0, 0, 0, Size(0, []);
    NoSize();
    ghost var run := [];
    while dl < |decls|
      invariant dl <= |decls| && (i > 0 ==> cur + i == dl)
      invariant run == (if i > 0 then decls[cur..dl] else []) && size == SizeOf(run)
      invariant out + Inlined(decls[dl..], run, flag, inlineflag) == Inlined(decls, [], flag, inlineflag)
      decreases |decls| - dl
    {
      var d := decls[dl];
      assert decls[dl..][0] == d && decls[dl..][1..] == decls[dl + 1..];
      InlinedStep(decls[dl..], run, flag, inlineflag);
      if d.prefix.None? && FindType(d.typ).Some? && (d.rel == Alias || d.rel == Vector) {
        if i == 0 {
          cur := dl;
        }
        i := i + 1;
        SizeGrows(run, d);
        if d.rel == Alias {
          size := Size(size.words + Length(d), size.terms);
        } else {
          size := Size(size.words, size.terms + [(d.arrayMax, Length(d))]);
        }
        run := run + [d];
        assert run == decls[cur..dl + 1];
      } else {
        var group := CloseRun(decls, cur, dl, i, size, flag, inlineflag);
        out := out + group + [Filter(d)];
        i, size, run := 0, Size(0, []), [];
      }
      dl := dl + 1;
    }
    assert decls[dl..] == [];
    InlinedEnd(run, flag, inlineflag);
    var group := CloseRun(decls, cur, dl, i, size, flag, inlineflag);
    out := out + group;
  }

  lemma InlinedStep(decls: seq<Decl>, run: seq<Decl>, flag: Flag, inlineflag: int)
    requires decls != []
    ensures Inlined(decls, run, flag, inlineflag) ==
      if Basic(decls[0]) then Inlined(decls[1..], run + [decls[0]], flag, inlineflag)
      else Group(run, flag, inlineflag) + [Filter(decls[0])] + Inlined(decls[1..], [], flag, inlineflag)
  {
  }

  lemma InlinedEnd(run: seq<Decl>, flag: Flag, inlineflag: int)
    ensures Inlined([], run, flag, inlineflag) == Group(run, flag, inlineflag)
  {
  }

  lemma NoSize()
    ensures SizeOf([]) == Size(0, [])
  {
  }

  lemma SizeGrows(run: seq<Decl>, d: Decl)
    ensures
      var z := SizeOf(run);
      SizeOf(run + [d]) == if d.rel == Alias then Size(z.words + Length(d), z.terms) else Size(z.words, z.terms + [(d.arrayMax, Length(d))])
  {
    assert (run + [d])[..|run|] == run;
  }

  /** emit_struct: a first pass decides whether code for each operation is written. */
  method EmitStruct(decls: seq<Decl>, inlineflag: int) returns (code: Code)
    ensures code == Written(decls, inlineflag)
  {
    var plain := PrintRun(decls, 0, |decls|);
    assert decls[0..|decls|] == decls;
    if inlineflag == 0 {
      return Same(plain);
    }
    var size: nat, canInline, dl := 0, false, 0;
    while dl < |decls|
      invariant dl <= |decls|
      invariant Worth(decls, 0, inlineflag) <==> Worth(decls[dl..], size, inlineflag)
    {
      var d := decls[dl];
      assert decls[dl..][0] == d && decls[dl..][1..] == decls[dl + 1..];
      if d.prefix.None? && FindType(d.typ).Some? && (d.rel == Alias || d.rel == Vector) {
        if d.rel == Alias {
          size := size + Length(d);
        } else {
          canInline := true;
          break;
        }
      } else {
        if size >= inlineflag {
          canInline := true;
          break;
        }
        size := 0;
      }
      dl := dl + 1;
    }
    if size > inlineflag {
      canInline := true;
    }
    if !canInline {
      return Same(plain);
    }
    var encode := InlineStruct(decls, PUT, inlineflag);
    var decode := InlineStruct(decls, GET, inlineflag);
    return ByOp(encode, decode, plain);
  }

  // What the first pass decides

  predicate HasRequest(stmts: seq<Stmt>) {
    exists s <- stmts :: s.Request?
  }

  /** The size of the run that ends the struct, if the run has no vector. */
  function LastRun(decls: seq<Decl>, words: nat): nat {
    if decls == [] then words
    else if Basic(decls[0]) then LastRun(decls[1..], words + Length(decls[0]))
    else LastRun(decls[1..], 0)
  }

  lemma {:induction false} VectorRequests(decls: seq<Decl>, run: seq<Decl>, flag: Flag, inlineflag: int)
    requires SizeOf(run).terms != []
    ensures HasRequest(Inlined(decls, run, flag, inlineflag))
    decreases |decls|
  {
    hide Basic;
    var out := Inlined(decls, run, flag, inlineflag);
    if decls != [] && Basic(decls[0]) {
      SizeGrows(run, decls[0]);
      VectorRequests(decls[1..], run + [decls[0]], flag, inlineflag);
    } else {
      assert out[0].Request?;
    }
  }

  lemma {:induction false} StatsRequestNothing(run: seq<Decl>)
    ensures !HasRequest(PrintStats(run))
  {
    if run != [] {
      StatsRequestNothing(run[1..]);
    }
  }

  lemma GroupRequests(run: seq<Decl>, flag: Flag, inlineflag: int)
    ensures HasRequest(Group(run, flag, inlineflag)) <==>
      run != [] && (SizeOf(run).terms != [] || SizeOf(run).words >= inlineflag)
  {
    StatsRequestNothing(run);
    var group := Group(run, flag, inlineflag);
    assert group != [] ==> group[0] in group;
  }

  /** With a positive threshold, the pass finds inlining worth while exactly if there
      is something to inline, except that a last run of just the threshold is not
      enough. */
  lemma {:induction false} WorthIff(decls: seq<Decl>, run: seq<Decl>, flag: Flag, inlineflag: int)
    requires inlineflag > 0 && SizeOf(run).terms == []
    ensures HasRequest(Inlined(decls, run, flag, inlineflag)) <==>
      Worth(decls, SizeOf(run).words, inlineflag) || LastRun(decls, SizeOf(run).words) == inlineflag
    decreases |decls|
  {
    hide Group, Basic, FindType, Length;
    GroupRequests(run, flag, inlineflag);
    NoSize();
    if decls != [] {
      var d := decls[0];
      if Basic(d) {
        BasicTakesOne(d);
        SizeGrows(run, d);
        if d.rel == Vector {
          VectorRequests(decls[1..], run + [d], flag, inlineflag);
        } else {
          WorthIff(decls[1..], run + [d], flag, inlineflag);
        }
      } else {
        WorthIff(decls[1..], [], flag, inlineflag);
        var group, rest := Group(run, flag, inlineflag), Inlined(decls[1..], [], flag, inlineflag);
        assert forall s :: s in group + [Filter(d)] + rest <==> s in group || s == Filter(d) || s in rest;
      }
    }
  }

  /** The fields from `a` up to `b` are basic. */
  predicate Stretch(decls: seq<Decl>, a: nat, b: nat) {
    a <= b <= |decls| && forall i :: a <= i < b ==> Basic(decls[i])
  }

  /** Fields `a` up to `b` count as a run that is long enough: more than the threshold
      at the end of the struct, elsewhere at least as much. */
  predicate LongRun(decls: seq<Decl>, words: nat, inlineflag: int, a: nat, b: nat) {
    && Stretch(decls, a, b)
    && (b < |decls| ==> !Basic(decls[b]))
    && var size := b - a + if a == 0 then words else 0;
       if b < |decls| then size >= inlineflag else size > inlineflag
  }

  ghost predicate HasVector(decls: seq<Decl>) {
    exists d <- decls :: Basic(d) && d.rel == Vector
  }

  ghost predicate HasLongRun(decls: seq<Decl>, words: nat, inlineflag: int) {
    exists a, b :: LongRun(decls, words, inlineflag, a, b)
  }

  /** The first pass by places: a vector of a basic type, or a long enough run. */
  lemma {:induction false} WorthMeans(decls: seq<Decl>, words: nat, inlineflag: int)
    requires inlineflag > 0
    ensures Worth(decls, words, inlineflag) <==> HasVector(decls) || HasLongRun(decls, words, inlineflag)
  {
    hide Basic;
    if decls == [] {
      assert words > inlineflag ==> LongRun(decls, words, inlineflag, 0, 0);
    } else {
      var d, rest := decls[0], decls[1..];
      assert forall i :: 1 <= i < |decls| ==> decls[i] == rest[i - 1];
      VectorOfRest(decls);
      if Basic(d) {
        BasicTakesOne(d);
        WorthMeans(rest, words + 1, inlineflag);
        RunsOfBasic(decls, words, inlineflag);
      } else {
        WorthMeans(rest, 0, inlineflag);
        RunsOfOther(decls, words, inlineflag);
      }
    }
  }

  lemma VectorOfRest(decls: seq<Decl>)
    requires decls != []
    ensures HasVector(decls) <==> (Basic(decls[0]) && decls[0].rel == Vector) || HasVector(decls[1..])
  {
    hide Basic;
    assert decls == [decls[0]] + decls[1..];
    if HasVector(decls[1..]) {
      var d :| d in decls[1..] && Basic(d) && d.rel == Vector;
      assert d in decls;
    }
  }

  lemma RunsOfBasic(decls: seq<Decl>, words: nat, inlineflag: int)
    requires decls != [] && Basic(decls[0]) && inlineflag > 0
    ensures HasLongRun(decls, words, inlineflag) <==> HasLongRun(decls[1..], words + 1, inlineflag)
  {
    hide Basic;
    var rest, more := decls[1..], words + 1;
    assert forall i :: 1 <= i < |decls| ==> decls[i] == rest[i - 1];
    if a: nat, b: nat :| LongRun(decls, words, inlineflag, a, b) {
      assert b >= 1;
      assert LongRun(rest, more, inlineflag, if a == 0 then 0 else a - 1, b - 1);
    }
    if a: nat, b: nat :| LongRun(rest, more, inlineflag, a, b) {
      assert LongRun(decls, words, inlineflag, if a == 0 then 0 else a + 1, b + 1);
    }
  }

  lemma RunsOfOther(decls: seq<Decl>, words: nat, inlineflag: int)
    requires decls != [] && !Basic(decls[0]) && inlineflag > 0
    ensures HasLongRun(decls, words, inlineflag) <==> words >= inlineflag || HasLongRun(decls[1..], 0, inlineflag)
  {
    hide Basic;
    var rest := decls[1..];
    assert forall i :: 1 <= i < |decls| ==> decls[i] == rest[i - 1];
    if words >= inlineflag {
      assert LongRun(decls, words, inlineflag, 0, 0);
    }
    if a: nat, b: nat :| LongRun(decls, words, inlineflag, a, b) {
      if a > 0 {
        assert LongRun(rest, 0, inlineflag, a - 1, b - 1);
      }
    }
    if a: nat, b: nat :| LongRun(rest, 0, inlineflag, a, b) {
      assert LongRun(decls, words, inlineflag, a + 1, b + 1);
    }
  }

  /** What kind of code a struct gets: one list for all operations with the threshold 0,
      or without anything worth inlining, else one for each. */
  lemma KindOfCode(decls: seq<Decl>, inlineflag: int)
    requires inlineflag >= 0
    ensures Written(decls, inlineflag).ByOp? <==>
      inlineflag > 0 && (HasVector(decls) || HasLongRun(decls, 0, inlineflag))
  {
    hide Worth, HasVector, HasLongRun;
    if inlineflag > 0 {
      WorthMeans(decls, 0, inlineflag);
    }
  }

  /** The types that count as basic, singly or in a vector, without a prefix. */
  lemma BasicIs(d: Decl)
    ensures Basic(d) <==>
      && d.prefix.None? && (d.rel == Alias || d.rel == Vector)
      && (d.typ == "int" || d.typ == "long" || d.typ == "short" || d.typ == "bool"
          || d.typ == "u_int" || d.typ == "u_long" || d.typ == "u_short")
  {
    assert BASIC_TYPES[0] == "int" && BASIC_TYPES[1] == "long" && BASIC_TYPES[2] == "short" && BASIC_TYPES[3] == "bool";
    assert BASIC_TYPES[4] == "u_int" && BASIC_TYPES[5] == "u_long" && BASIC_TYPES[6] == "u_short";
  }

  predicate SingleFields(decls: seq<Decl>) {
    forall d <- decls :: Basic(d) && d.rel == Alias
  }

  lemma {:induction false} SingleFieldsCounted(decls: seq<Decl>, words: nat, inlineflag: int)
    requires SingleFields(decls)
    ensures Worth(decls, words, inlineflag) <==> words + |decls| > inlineflag
    ensures LastRun(decls, words) == words + |decls|
  {
    hide Basic;
    if decls != [] {
      BasicTakesOne(decls[0]);
      SingleFieldsCounted(decls[1..], words + 1, inlineflag);
    }
  }

  /** So a struct of exactly as many single basic fields as the threshold says gets the
      plain code, although the second pass would request a buffer for it. */
  lemma JustThreshold(decls: seq<Decl>, flag: Flag)
    requires decls != [] && SingleFields(decls)
    ensures HasRequest(Inlined(decls, [], flag, |decls|))
    ensures Written(decls, |decls|) == Same(PrintStats(decls))
  {
    NoSize();
    SingleFieldsCounted(decls, 0, |decls|);
    WorthIff(decls, [], flag, |decls|);
  }

  /** Three integers, with the default threshold. */
  lemma ThreeIntegers(flag: Flag)
    ensures
      var three := seq(3, i => Decl(None, "int", Alias, "f", ""));
      HasRequest(Inlined(three, [], flag, 3)) && Written(three, 3) == Same(PrintStats(three))
  {
    var three := seq(3, i => Decl(None, "int", Alias, "f", ""));
    assert BASIC_TYPES[0] == "int";
    JustThreshold(three, flag);
  }
}
