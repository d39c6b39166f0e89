/** What getopt reports, by the forms in which options are written
    (tools/install/lib/getopt.c). */
module GetoptForms {
  import opened Options
  import opened Getopt

  // Which letters are options, and whether they take an argument

  /** The first place of the letter in the option string. */
  predicate FirstAt(s: string, c: char, k: nat) {
    k < |s| && s[k] == c && forall j :: 0 <= j < k ==> s[j] != c
  }

  predicate ColonAt(s: string, k: nat) {
    k < |s| && s[k] == ':'
  }

  lemma FirstOnce(s: string, c: char, j: nat, k: nat)
    requires FirstAt(s, c, j) && FirstAt(s, c, k)
    ensures j == k
  {
  }

  lemma {:induction false} IndexIsFirst(s: string, c: char, k: nat)
    requires FirstAt(s, c, k)
    ensures IndexOf(s, c) == Some(k)
    decreases k
  {
    if k > 0 {
      assert forall j :: 0 <= j < k - 1 ==> s[1..][j] == s[j + 1];
      IndexIsFirst(s[1..], c, k - 1);
    }
  }

  /** A letter of the option string takes an argument if a colon follows its first
      place, and an optional one if two do. */
  lemma ArityByColons(o: Spec, c: char, k: nat)
    requires c != ':' && FirstAt(o.optstring, c, k)
    ensures ArityOf(o, c) ==
      if !ColonAt(o.optstring, k + 1) then NoArgument
      else if !ColonAt(o.optstring, k + 2) then RequiredArgument
      else OptionalArgument
  {
    IndexIsFirst(o.optstring, c, k);
  }

  lemma NoSuchLetter(o: Spec, c: char)
    requires c == ':' || c !in o.optstring
    ensures ArityOf(o, c) == Unknown
  {
    IndexInside(o.optstring, c);
  }

  /** The letter takes no argument. */
  ghost predicate IsFlag(o: Spec, c: char) {
    exists k: nat :: c != ':' && FirstAt(o.optstring, c, k) && !ColonAt(o.optstring, k + 1)
  }

  ghost predicate NeedsArgument(o: Spec, c: char) {
    exists k: nat :: c != ':' && FirstAt(o.optstring, c, k) && ColonAt(o.optstring, k + 1) && !ColonAt(o.optstring, k + 2)
  }

  ghost predicate MayHaveArgument(o: Spec, c: char) {
    exists k: nat :: c != ':' && FirstAt(o.optstring, c, k) && ColonAt(o.optstring, k + 1) && ColonAt(o.optstring, k + 2)
  }

  /** The code of an error for a missing argument depends on a leading colon. */
  function Missing(o: Spec): char {
    if ColonAt(o.optstring, 0) then ':' else '?'
  }

  // The forms

  /** What one element of the command line is meant to be. */
  datatype Piece =
    | Other(word: string)
    | Flags(letters: string)
    | FlagsWith(letters: string, c: char, val: string)
    | FlagsNext(letters: string, c: char, val: string)
    | FlagsMay(letters: string, c: char)
    | LongAlone(name: string, index: nat)
    | LongWith(name: string, index: nat, val: string)
    | LongNext(name: string, index: nat, val: string)

  /** The arguments in which it is written. */
  function Words(p: Piece): (r: seq<string>)
    ensures 1 <= |r| <= 2
  {
    match p
    case Other(w) => [w]
    case Flags(letters) => ["-" + letters]
    case FlagsWith(letters, c, val) => ["-" + letters + [c] + val]
    case FlagsNext(letters, c, val) => ["-" + letters + [c], val]
    case FlagsMay(letters, c) => ["-" + letters + [c]]
    case LongAlone(name, _) => ["--" + name]
    case LongWith(name, _, val) => ["--" + name + "=" + val]
    case LongNext(name, _, val) => ["--" + name, val]
  }

  function Each(letters: string): (r: seq<Answer>)
    ensures |r| == |letters| && forall i :: 0 <= i < |r| ==> r[i] == Short(letters[i], None)
  {
    seq(|letters|, i requires 0 <= i < |letters| => Short(letters[i], None))
  }

  /** What it is meant to report. */
  function Reports(p: Piece): seq<Answer> {
    match p
    case Other(_) => []
    case Flags(letters) => Each(letters)
    case FlagsWith(letters, c, val) => Each(letters) + [Short(c, Some(val))]
    case FlagsNext(letters, c, val) => Each(letters) + [Short(c, Some(val))]
    case FlagsMay(letters, c) => Each(letters) + [Short(c, None)]
    case LongAlone(_, i) => [Long(i, None)]
    case LongWith(_, i, val) => [Long(i, Some(val))]
    case LongNext(_, i, val) => [Long(i, Some(val))]
  }

  ghost predicate AllFlags(o: Spec, letters: string) {
    forall i :: 0 <= i < |letters| ==> IsFlag(o, letters[i])
  }

  /** Letters that are not mistaken for a long option, or for "--". */
  predicate OpensCluster(o: Spec, text: string) {
    text != "" && (text[0] == '-' ==> o.longopts.None? && |text| > 1)
  }

  /** A name that stands for long option `i`: it is the name of that option and of none
      before, or it is the name of none and only option `i` starts with it. */
  predicate Names(longopts: seq<LongOption>, name: string, i: nat) {
    && i < |longopts|
    && if longopts[i].name == name then forall j :: 0 <= j < i ==> longopts[j].name != name
       else name <= longopts[i].name && forall j :: 0 <= j < |longopts| && j != i ==> !(name <= longopts[j].name)
  }

  predicate IsLongName(o: Spec, name: string, i: nat) {
    o.longopts.Some? && '=' !in name && Names(o.longopts.value, name, i)
  }

  /** The piece is one that the options allow. */
  ghost predicate Allowed(o: Spec, p: Piece) {
    match p
    case Other(w) => w == "" || w[0] != '-' || w == "-"
    case Flags(letters) => OpensCluster(o, letters) && AllFlags(o, letters)
    case FlagsWith(letters, c, val) =>
      && OpensCluster(o, letters + [c] + val) && AllFlags(o, letters)
      && (NeedsArgument(o, c) || MayHaveArgument(o, c)) && val != ""
    case FlagsNext(letters, c, val) => OpensCluster(o, letters + [c]) && AllFlags(o, letters) && NeedsArgument(o, c)
    case FlagsMay(letters, c) => OpensCluster(o, letters + [c]) && AllFlags(o, letters) && MayHaveArgument(o, c)
    case LongAlone(name, i) => IsLongName(o, name, i) && name != "" && o.longopts.value[i].hasArg != 1
    case LongWith(name, i, val) => IsLongName(o, name, i) && o.longopts.value[i].hasArg != 0
    case LongNext(name, i, val) => IsLongName(o, name, i) && name != "" && o.longopts.value[i].hasArg == 1
  }

  // Letters

  /** Flags in front of whatever follows them in the argument. */
  lemma {:induction false} FlagsFirst(o: Spec, letters: string, more: string, next: seq<string>)
    requires AllFlags(o, letters)
    ensures
      var (events, taken) := Cluster(o, more, next);
      Cluster(o, letters + more, next) == (Each(letters) + events, taken)
  {
    hide ArityOf;
    var (events, taken) := Cluster(o, more, next);
    if letters == "" {
      assert letters + more == more && Each(letters) + events == events;
    } else {
      var c := letters[0];
      assert IsFlag(o, c);
      var k: nat :| c != ':' && FirstAt(o.optstring, c, k) && !ColonAt(o.optstring, k + 1);
      ArityByColons(o, c, k);
      assert AllFlags(o, letters[1..]);
      FlagsFirst(o, letters[1..], more, next);
      assert (letters + more)[0] == c && (letters + more)[1..] == letters[1..] + more;
      assert Each(letters) == [Short(c, None)] + Each(letters[1..]);
      assert [Short(c, None)] + (Each(letters[1..]) + events) == [Short(c, None)] + Each(letters[1..]) + events;
    }
  }

  lemma OneArity(o: Spec, c: char)
    requires MayHaveArgument(o, c)
    ensures !NeedsArgument(o, c)
  {
    var k: nat :| FirstAt(o.optstring, c, k) && ColonAt(o.optstring, k + 2);
    forall j: nat | FirstAt(o.optstring, c, j)
      ensures j == k
    {
      FirstOnce(o.optstring, c, j, k);
    }
  }

  lemma LastLetter(o: Spec, c: char, val: string, next: seq<string>)
    requires NeedsArgument(o, c) || MayHaveArgument(o, c)
    ensures val != "" ==> Cluster(o, [c] + val, next) == ([Short(c, Some(val))], false)
    ensures val == "" && MayHaveArgument(o, c) ==> Cluster(o, [c] + val, next) == ([Short(c, None)], false)
    ensures val == "" && NeedsArgument(o, c) && next != [] ==> Cluster(o, [c] + val, next) == ([Short(c, Some(next[0]))], true)
    ensures val == "" && NeedsArgument(o, c) && next == [] ==> Cluster(o, [c] + val, next) == ([Error(Missing(o))], false)
  {
    var k: nat :| c != ':' && FirstAt(o.optstring, c, k) && ColonAt(o.optstring, k + 1);
    ArityByColons(o, c, k);
    if NeedsArgument(o, c) {
      var k': nat :| FirstAt(o.optstring, c, k') && !ColonAt(o.optstring, k' + 2);
      FirstOnce(o.optstring, c, k, k');
    }
    if MayHaveArgument(o, c) {
      var k': nat :| FirstAt(o.optstring, c, k') && ColonAt(o.optstring, k' + 2);
      FirstOnce(o.optstring, c, k, k');
    }
    assert ([c] + val)[1..] == val;
  }

  // Long options

  lemma {:induction false} NameEnds(name: string, rest: string)
    requires '=' !in name && (rest == "" || rest[0] == '=')
    ensures NamePart(name + rest) == name
  {
    if name == "" {
      assert name + rest == rest;
    } else {
      assert (name + rest)[1..] == name[1..] + rest;
      NameEnds(name[1..], rest);
    }
  }

  /** What the search finds, when no option has the name, several start with it, or
      one is named. */
  lemma SearchMeans(longopts: seq<LongOption>, name: string)
    ensures forall i: nat :: Names(longopts, name, i) ==> Search(longopts, name, 0, None, false) == Found(i)
    ensures (forall i :: 0 <= i < |longopts| ==> !(name <= longopts[i].name)) ==>
      Search(longopts, name, 0, None, false) == NotFound
    ensures (forall i :: 0 <= i < |longopts| ==> longopts[i].name != name)
            && (exists i, j :: 0 <= i < j < |longopts| && name <= longopts[i].name && name <= longopts[j].name) ==>
      Search(longopts, name, 0, None, false) == Ambiguous
  {
    SearchFinds(longopts, name, 0, None, false);
    var m := Search(longopts, name, 0, None, false);
    forall i: nat | Names(longopts, name, i)
      ensures m == Found(i)
    {
      assert name <= longopts[i].name;
    }
  }

  lemma SearchAsNamed(longopts: seq<LongOption>, name: string, i: nat)
    requires Names(longopts, name, i)
    ensures Search(longopts, name, 0, None, false) == Found(i)
  {
    SearchMeans(longopts, name);
  }

  lemma LongForm(o: Spec, name: string, i: nat, rest: string, next: seq<string>)
    requires IsLongName(o, name, i) && (rest == "" || rest[0] == '=')
    ensures
      var hasArg := o.longopts.value[i].hasArg;
      LongElement(o, name + rest, next) ==
        if rest != "" then (if hasArg != 0 then (Long(i, Some(rest[1..])), false) else (Error('?'), false))
        else if hasArg != 1 then (Long(i, None), false)
        else if next == [] then (Error(Missing(o)), false)
        else (Long(i, Some(next[0])), true)
  {
    hide Search, NamePart;
    NameEnds(name, rest);
    SearchAsNamed(o.longopts.value, name, i);
    assert rest != "" ==> (name + rest)[|name| + 1..] == rest[1..];
    assert name + "" == name;
  }

  // Whole command lines

  function OptionWords(p: Piece): seq<string> {
    if p.Other? then [] else Words(p)
  }

  function OtherWords(p: Piece): seq<string> {
    if p.Other? then Words(p) else []
  }

  /** One piece in front of other arguments is read as it was meant. */
  lemma PieceRead(o: Spec, p: Piece, more: seq<string>)
    requires Allowed(o, p)
    ensures
      var q := Scan(o, more);
      Scan(o, Words(p) + more) == Parse(Reports(p) + q.events, OptionWords(p) + q.options, OtherWords(p) + q.rest)
  {
    hide Scan;
    match p
    case Other(w) => OtherRead(o, w, more);
    case LongAlone(_, _) => LongPieceRead(o, p, more);
    case LongWith(_, _, _) => LongPieceRead(o, p, more);
    case LongNext(_, _, _) => LongPieceRead(o, p, more);
    case Flags(_) => FlagsRead(o, p, more);
    case FlagsWith(_, _, _) => FlagsWithRead(o, p, more);
    case FlagsNext(_, _, _) => FlagsNextRead(o, p, more);
    case FlagsMay(_, _) => FlagsMayRead(o, p, more);
  }

  lemma FlagsRead(o: Spec, p: Piece, more: seq<string>)
    requires p.Flags? && Allowed(o, p)
    ensures
      var q := Scan(o, more);
      Scan(o, Words(p) + more) == Parse(Reports(p) + q.events, OptionWords(p) + q.options, OtherWords(p) + q.rest)
  {
    hide Scan, After, LongElement, Cluster, IsFlag, NeedsArgument, MayHaveArgument, Names;
    var args, letters := Words(p) + more, p.letters;
    assert args[1..] == more && args[..1] == Words(p);
    FlagsFirst(o, letters, "", more);
    NoLetters(o, more);
    assert letters + "" == letters && Each(letters) + [] == Each(letters);
    ClusterRead(o, letters, more);
  }

  lemma FlagsWithRead(o: Spec, p: Piece, more: seq<string>)
    requires p.FlagsWith? && Allowed(o, p)
    ensures
      var q := Scan(o, more);
      Scan(o, Words(p) + more) == Parse(Reports(p) + q.events, OptionWords(p) + q.options, OtherWords(p) + q.rest)
  {
    hide Scan, After, LongElement, Cluster, IsFlag, NeedsArgument, MayHaveArgument, Names;
    LettersRead(o, p.letters, p.c, p.val, more);
  }

  lemma FlagsNextRead(o: Spec, p: Piece, more: seq<string>)
    requires p.FlagsNext? && Allowed(o, p)
    ensures
      var q := Scan(o, more);
      Scan(o, Words(p) + more) == Parse(Reports(p) + q.events, OptionWords(p) + q.options, OtherWords(p) + q.rest)
  {
    hide Scan, After, LongElement, Cluster, IsFlag, NeedsArgument, MayHaveArgument, Names;
    var word := "-" + p.letters + [p.c];
    LettersRead(o, p.letters, p.c, "", [p.val] + more);
    assert word + "" == word && [word] + ([p.val] + more) == Words(p) + more;
    assert ([p.val] + more)[1..] == more && ([p.val] + more)[..1] == [p.val];
  }

  lemma FlagsMayRead(o: Spec, p: Piece, more: seq<string>)
    requires p.FlagsMay? && Allowed(o, p)
    ensures
      var q := Scan(o, more);
      Scan(o, Words(p) + more) == Parse(Reports(p) + q.events, OptionWords(p) + q.options, OtherWords(p) + q.rest)
  {
    hide Scan, After, LongElement, Cluster, IsFlag, NeedsArgument, MayHaveArgument, Names;
    OneArity(o, p.c);
    LettersRead(o, p.letters, p.c, "", more);
    assert "-" + p.letters + [p.c] + "" == "-" + p.letters + [p.c];
  }

  lemma LongPieceRead(o: Spec, p: Piece, more: seq<string>)
    requires Allowed(o, p) && (p.LongAlone? || p.LongWith? || p.LongNext?)
    ensures
      var q := Scan(o, more);
      Scan(o, Words(p) + more) == Parse(Reports(p) + q.events, OptionWords(p) + q.options, OtherWords(p) + q.rest)
  {
    hide Scan, After, LongElement, Cluster, IsFlag, NeedsArgument, MayHaveArgument, Names;
    var args, n := Words(p) + more, |Words(p)|;
    assert args[n..] == more && args[..n] == Words(p);
    match p
    case LongAlone(name, i) =>
      LongForm(o, name, i, "", more);
      assert name + "" == name;
      LongRead(o, name, more);
    case LongWith(name, i, val) =>
      LongForm(o, name, i, "=" + val, args[1..]);
      assert ("=" + val)[1..] == val && name + ("=" + val) == name + "=" + val && "--" + (name + "=" + val) == "--" + name + "=" + val;
      LongRead(o, name + ("=" + val), args[1..]);
    case LongNext(name, i, val) =>
      LongForm(o, name, i, "", [val] + more);
      assert name + "" == name && ["--" + name] + ([val] + more) == args;
      LongRead(o, name, [val] + more);
  }

  /** Flags and a letter with an argument, in the same word or in the next. */
  lemma LettersRead(o: Spec, letters: string, c: char, val: string, next: seq<string>)
    requires OpensCluster(o, letters + [c] + val) && AllFlags(o, letters) && (NeedsArgument(o, c) || MayHaveArgument(o, c))
    ensures
      var word := "-" + letters + [c] + val;
      var inNext := val == "" && NeedsArgument(o, c) && next != [];
      var report :=
        if val != "" then Short(c, Some(val))
        else if inNext then Short(c, Some(next[0]))
        else if NeedsArgument(o, c) then Error(Missing(o))
        else Short(c, None);
      var n := if inNext then 1 else 0;
      var q := Scan(o, next[n..]);
      Scan(o, [word] + next) == Parse(Each(letters) + [report] + q.events, [word] + next[..n] + q.options, q.rest)
  {
    hide Cluster, Scan, AllFlags, NeedsArgument, MayHaveArgument;
    var text := letters + [c] + val;
    FlagsFirst(o, letters, [c] + val, next);
    LastLetter(o, c, val, next);
    assert letters + ([c] + val) == text && "-" + text == "-" + letters + [c] + val;
    ClusterRead(o, text, next);
    var args := ["-" + text] + next;
    assert args[2 - 1..] == next && (next != [] ==> args[2..] == next[1..]);
    assert args[..1] == ["-" + text] && (next != [] ==> args[..2] == ["-" + text] + next[..1]);
    assert ["-" + text] + next[..0] == ["-" + text];
  }

  lemma OtherRead(o: Spec, w: string, more: seq<string>)
    requires w == "" || w[0] != '-' || w == "-"
    ensures var q := Scan(o, more); Scan(o, [w] + more) == q.(rest := [w] + q.rest)
  {
    assert ([w] + more)[1..] == more;
  }

  lemma NoLetters(o: Spec, next: seq<string>)
    ensures Cluster(o, "", next) == ([], false)
  {
  }

  lemma ClusterRead(o: Spec, text: string, next: seq<string>)
    requires OpensCluster(o, text)
    ensures
      var args := ["-" + text] + next;
      var (events, taken) := Cluster(o, text, next);
      var n := if taken then 2 else 1;
      var q := Scan(o, args[n..]);
      Scan(o, args) == Parse(events + q.events, args[..n] + q.options, q.rest)
  {
    hide Cluster;
    var args := ["-" + text] + next;
    assert args[0][1..] == text && args[1..] == next;
    assert args[0][1] == text[0];
  }

  lemma LongRead(o: Spec, text: string, next: seq<string>)
    requires o.longopts.Some? && text != ""
    ensures
      var args := ["--" + text] + next;
      var (a, taken) := LongElement(o, text, next);
      var n := if taken then 2 else 1;
      var q := Scan(o, args[n..]);
      Scan(o, args) == Parse([a] + q.events, args[..n] + q.options, q.rest)
  {
    hide LongElement;
    var args := ["--" + text] + next;
    assert args[0][2..] == text && args[1..] == next;
  }

  // Command lines with mistakes

  /** A letter that is no option is reported, and the letters behind it are read on. */
  lemma WrongLetterRead(o: Spec, letters: string, c: char, rest: string, next: seq<string>)
    requires AllFlags(o, letters) && (c == ':' || c !in o.optstring)
    ensures
      var (events, taken) := Cluster(o, rest, next);
      Cluster(o, letters + [c] + rest, next) == (Each(letters) + [Error('?')] + events, taken)
  {
    hide AllFlags;
    var (events, taken) := Cluster(o, rest, next);
    NoSuchLetter(o, c);
    assert ([c] + rest)[1..] == rest;
    FlagsFirst(o, letters, [c] + rest, next);
    assert letters + ([c] + rest) == letters + [c] + rest;
    assert Each(letters) + ([Error('?')] + events) == Each(letters) + [Error('?')] + events;
  }

  /** A name that is no option, or the beginning of several; a value for an option that
      takes none; no value for one that needs it. */
  lemma WrongLongRead(o: Spec, name: string, rest: string, next: seq<string>)
    requires o.longopts.Some? && '=' !in name && name + rest != "" && (rest == "" || rest[0] == '=')
    requires
      var opts := o.longopts.value;
      || (forall i :: 0 <= i < |opts| ==> !(name <= opts[i].name))
      || ((forall i :: 0 <= i < |opts| ==> opts[i].name != name)
          && exists i, j :: 0 <= i < j < |opts| && name <= opts[i].name && name <= opts[j].name)
      || (rest != "" && exists i: nat :: Names(opts, name, i) && opts[i].hasArg == 0)
    ensures
      var args := ["--" + name + rest] + next;
      var q := Scan(o, next);
      Scan(o, args) == Parse([Error('?')] + q.events, [args[0]] + q.options, q.rest)
  {
    hide Search, NamePart, Scan;
    NameEnds(name, rest);
    SearchMeans(o.longopts.value, name);
    if i: nat :| Names(o.longopts.value, name, i) && o.longopts.value[i].hasArg == 0 && rest != "" {
      LongForm(o, name, i, rest, next);
    }
    LongRead(o, name + rest, next);
    assert "--" + (name + rest) == "--" + name + rest;
    assert (["--" + name + rest] + next)[1..] == next;
    assert (["--" + name + rest] + next)[..1] == ["--" + name + rest];
  }

  lemma MissingValueRead(o: Spec, name: string, i: nat)
    requires IsLongName(o, name, i) && name != "" && o.longopts.value[i].hasArg == 1
    ensures Scan(o, ["--" + name]) == Parse([Error(Missing(o))], ["--" + name], [])
  {
    hide LongElement;
    LongForm(o, name, i, "", []);
    assert name + "" == name;
    LongRead(o, name, []);
    assert ["--" + name] + [] == ["--" + name];
    assert ["--" + name][1..] == [];
  }

  // All pieces in their order

  function AllWords(ps: seq<Piece>): seq<string> {
    if ps == [] then [] else Words(ps[0]) + AllWords(ps[1..])
  }

  function AllReports(ps: seq<Piece>): seq<Answer> {
    if ps == [] then [] else Reports(ps[0]) + AllReports(ps[1..])
  }

  function AllOptionWords(ps: seq<Piece>): seq<string> {
    if ps == [] then [] else OptionWords(ps[0]) + AllOptionWords(ps[1..])
  }

  function AllOtherWords(ps: seq<Piece>): seq<string> {
    if ps == [] then [] else OtherWords(ps[0]) + AllOtherWords(ps[1..])
  }

  /** A command line reports exactly what its pieces mean; behind "--" nothing is an
      option. */
  lemma {:induction false} CommandLineRead(o: Spec, ps: seq<Piece>, tail: seq<string>)
    requires forall i :: 0 <= i < |ps| ==> Allowed(o, ps[i])
    requires tail == [] || tail[0] == "--"
    ensures Scan(o, AllWords(ps) + tail) ==
      Parse(AllReports(ps), AllOptionWords(ps) + (if tail == [] then [] else [tail[0]]),
            AllOtherWords(ps) + (if tail == [] then [] else tail[1..]))
  {
    hide Allowed, Words, Reports, OptionWords, OtherWords;
    if ps == [] {
      assert AllWords(ps) + tail == tail;
    } else {
      var rest := AllWords(ps[1..]) + tail;
      assert AllWords(ps) + tail == Words(ps[0]) + rest;
      PieceRead(o, ps[0], rest);
      CommandLineRead(o, ps[1..], tail);
      ConcatTwice(OptionWords(ps[0]), AllOptionWords(ps[1..]), if tail == [] then [] else [tail[0]]);
      ConcatTwice(OtherWords(ps[0]), AllOtherWords(ps[1..]), if tail == [] then [] else tail[1..]);
    }
  }

  lemma ConcatTwice<T>(a: seq<T>, b: seq<T>, c: seq<T>)
    ensures a + (b + c) == a + b + c
  {
  }

  /** So calling getopt until it is done gives the reports that were meant, and argv
      ends with the options in front. */
  method GetWritten(argv: array<string>, o: Spec, ghost ps: seq<Piece>, ghost tail: seq<string>)
    returns (answers: seq<Answer>, optind: nat)
    requires argv.Length >= 1 && argv[1..] == AllWords(ps) + tail
    requires forall i :: 0 <= i < |ps| ==> Allowed(o, ps[i])
    requires tail == [] || tail[0] == "--"
    modifies argv
    ensures answers == AllReports(ps)
    ensures 1 <= optind <= argv.Length
    ensures argv[1..optind] == AllOptionWords(ps) + (if tail == [] then [] else [tail[0]])
    ensures argv[optind..] == AllOtherWords(ps) + (if tail == [] then [] else tail[1..])
  {
    hide Allowed, Scan;
    CommandLineRead(o, ps, tail);
    ghost var p := Scan(o, argv[1..]);
    answers, optind := GetAll(argv, o);
    assert argv[1..optind] == p.options && argv[optind..] == p.rest;
  }
}
