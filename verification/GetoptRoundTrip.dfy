// Command lines, written out for a declared set of options in any style that getopt
// accepts, and what a caller gets back for them: every call's result, optarg and optopt.
module GetoptRoundTrip {
  import opened CTypes
  import opened GetoptReference
  import opened GetoptDeclarations
  import opened Getopt

  /** How the last option of a word carries its argument. */
  datatype Tail =
    | NoTail
    | Attached(c: char, arg: CString)   // in the rest of the word
    | Separate(c: char, word: Ptr)      // in the next word
    | Bare(c: char)                     // an optional argument left out

  /** An option word, of letters without arguments and a tail; or an operand that is returned in order. */
  datatype Unit = Options(letters: CString, tail: Tail) | InPlace(w: CString)

  /** How the options end: before operands, perhaps behind `--`, or in a word whose argument is not there. */
  datatype Ending = Operands(dashes: bool, ws: seq<Ptr>) | Lacking(letters: CString, c: char)

  // ---------- what is legal for the declarations ----------

  /** Letters that take no argument, or that are not declared. */
  predicate Simple(letters: string, spec: Spec) {
    forall i :: 0 <= i < |letters| ==> Declared(spec.decls, letters[i]) in {NoArgument, Unknown}
  }

  predicate LegalTail(tail: Tail, spec: Spec) {
    match tail
    case NoTail => true
    case Attached(c, arg) => c != NUL && arg != "" && Declared(spec.decls, c) in {Required, Optional}
    case Separate(c, _) => c != NUL && Declared(spec.decls, c) == Required
    case Bare(c) => c != NUL && Declared(spec.decls, c) == Optional
  }

  predicate LegalUnit(u: Unit, spec: Spec) {
    match u
    case Options(letters, tail) =>
      && Simple(letters, spec) && LegalTail(tail, spec)
      && letters + TailText(tail) != "" && letters + TailText(tail) != "-"
    case InPlace(w) => spec.mode.Dash? && At(w, 0) != '-'
  }

  predicate AllLegal(us: seq<Unit>, spec: Spec) {
    forall u <- us :: LegalUnit(u, spec)
  }

  /** Words that getopt does not enter: none, a null, "-", or an operand that is not returned in order. */
  predicate LegalEnding(e: Ending, spec: Spec) {
    match e
    case Operands(dashes, ws) =>
      dashes || ws == [] || ws[0].Null? || ws[0].s == "-" || (At(ws[0].s, 0) != '-' && !spec.mode.Dash?)
    case Lacking(letters, c) =>
      c != NUL && Simple(letters, spec) && Declared(spec.decls, c) == Required && letters + [c] != "-"
  }

  // ---------- the words of a command line ----------

  function TailText(t: Tail): string {
    match t
    case NoTail => ""
    case Attached(c, arg) => [c] + arg
    case Separate(c, _) => [c]
    case Bare(c) => [c]
  }

  function NextWord(t: Tail): seq<Ptr> {
    if t.Separate? then [t.word] else []
  }

  function UnitWords(u: Unit, spec: Spec): seq<Ptr>
    requires LegalUnit(u, spec)
  {
    match u
    case Options(letters, tail) => [Word("-" + (letters + TailText(tail)))] + NextWord(tail)
    case InPlace(w) => [Word(w)]
  }

  function AllWords(us: seq<Unit>, spec: Spec): seq<Ptr>
    requires AllLegal(us, spec)
  {
    if us == [] then [] else UnitWords(us[0], spec) + AllWords(us[1..], spec)
  }

  function EndingWords(e: Ending, spec: Spec): seq<Ptr>
    requires LegalEnding(e, spec)
  {
    match e
    case Operands(dashes, ws) => (if dashes then [Word("--")] else []) + ws
    case Lacking(letters, c) => [Word("-" + (letters + [c]))]
  }

  /** The command line, the terminating null pointer included. */
  function CommandLine(name: Ptr, us: seq<Unit>, e: Ending, spec: Spec): seq<Ptr>
    requires AllLegal(us, spec) && LegalEnding(e, spec)
  {
    [name] + (AllWords(us, spec) + EndingWords(e, spec)) + [Null]
  }

  // ---------- what the caller gets back ----------

  /** The last call, whose optarg and optopt are still there. */
  function Last(calls: seq<Call>, before: Call): Call {
    if calls == [] then before else calls[|calls| - 1]
  }

  /** A letter comes back as itself; one that is not declared as '?', with the letter in optopt. */
  function LetterCalls(letters: string, spec: Spec, before: Call): seq<Call> {
    if letters == "" then []
    else
      var c := letters[0];
      var now := if Declared(spec.decls, c).Unknown? then Call('?' as int, before.optarg, c)
                 else Call(c as int, before.optarg, before.optopt);
      [now] + LetterCalls(letters[1..], spec, now)
  }

  function TailCalls(t: Tail, before: Call): seq<Call> {
    match t
    case NoTail => []
    case Attached(c, arg) => [Call(c as int, Word(arg), before.optopt)]
    case Separate(c, word) => [Call(c as int, word, before.optopt)]
    case Bare(c) => [Call(c as int, Null, before.optopt)]
  }

  /** An operand in order comes back as 1. */
  function UnitCalls(u: Unit, spec: Spec, before: Call): seq<Call> {
    match u
    case Options(letters, tail) =>
      var first := LetterCalls(letters, spec, before);
      first + TailCalls(tail, Last(first, before))
    case InPlace(w) => [Call(1, Word(w), before.optopt)]
  }

  function AllCalls(us: seq<Unit>, spec: Spec, before: Call): seq<Call> {
    if us == [] then []
    else
      var first := UnitCalls(us[0], spec, before);
      first + AllCalls(us[1..], spec, Last(first, before))
  }

  /** A missing argument comes back as ':' if the option string says so, as '?' otherwise. */
  function EndingCalls(e: Ending, spec: Spec, before: Call): seq<Call> {
    match e
    case Operands(_, _) => []
    case Lacking(letters, c) =>
      var first := LetterCalls(letters, spec, before);
      first + [Call(if spec.lead > 0 then ':' as int else '?' as int, Null, c)]
  }

  // ---------- the events of the reference parser ----------

  function LetterEvents(letters: string, spec: Spec): seq<Event> {
    if letters == "" then []
    else
      [if Declared(spec.decls, letters[0]).Unknown? then Unrecognized(letters[0]) else Flag(letters[0])]
      + LetterEvents(letters[1..], spec)
  }

  function TailEvents(t: Tail): seq<Event> {
    match t
    case NoTail => []
    case Attached(c, arg) => [Argument(c, Word(arg))]
    case Separate(c, arg) => [Argument(c, arg)]
    case Bare(c) => [Absent(c)]
  }

  function UnitEvents(u: Unit, spec: Spec): seq<Event> {
    match u
    case Options(letters, tail) => LetterEvents(letters, spec) + TailEvents(tail)
    case InPlace(w) => [Operand(w)]
  }

  function AllEvents(us: seq<Unit>, spec: Spec): seq<Event> {
    if us == [] then [] else UnitEvents(us[0], spec) + AllEvents(us[1..], spec)
  }

  function EndingEvents(e: Ending, spec: Spec): seq<Event> {
    if e.Lacking? then LetterEvents(e.letters, spec) + [Missing(e.c)] else []
  }

  function Prepend(es: seq<Event>, words: nat, p: Parse): Parse {
    Parse(es + p.events, words + p.consumed)
  }

  lemma PrependTwice(a: seq<Event>, m: nat, b: seq<Event>, n: nat, p: Parse)
    ensures Prepend(a, m, Prepend(b, n, p)) == Prepend(a + b, m + n, p)
  {
  }

  // ---------- the reference parser finds them ----------

  /** Letters without arguments in front of the rest of a word. */
  lemma {:induction false} LettersParse(letters: CString, more: CString, rest: seq<Ptr>, optstring: CString, spec: Spec)
    requires Describes(spec, optstring) && Simple(letters, spec) && more != ""
    ensures letters + more != "" && NUL !in letters + more
    ensures ParseCluster(letters + more, rest, optstring)
            == Prepend(LetterEvents(letters, spec), 0, ParseCluster(more, rest, optstring))
  {
    hide ParseWords, KindOf, Continue;
    if letters == "" {
      assert letters + more == more;
    } else {
      var all: CString := letters + more;
      assert all[1..] == letters[1..] + more && all[0] == letters[0];
      LettersParse(letters[1..], more, rest, optstring, spec);
      var e := LetterEvents(letters, spec)[0];
      ContinueStep(e, all[1..], rest, optstring);
      PrependTwice([e], 0, LetterEvents(letters[1..], spec), 0, ParseCluster(more, rest, optstring));
    }
  }

  lemma LastLetter(c: char, rest: seq<Ptr>, optstring: CString, spec: Spec)
    requires Describes(spec, optstring) && c != NUL && Simple([c], spec)
    ensures ParseCluster([c], rest, optstring) == Prepend(LetterEvents([c], spec), 1, ParseWords(rest, optstring))
  {
    hide ParseWords, KindOf, Continue;
    var cs: CString := [c];
    assert cs[1..] == "" && cs[0] == c;
    assert LetterEvents(cs[1..], spec) == [];
    assert cs[0] == [c][0] && Declared(spec.decls, cs[0]) in {NoArgument, Unknown};
    ContinueStep(LetterEvents(cs, spec)[0], "", rest, optstring);
  }

  lemma TailParses(t: Tail, ws: seq<Ptr>, optstring: CString, spec: Spec)
    requires Describes(spec, optstring) && !t.NoTail? && LegalTail(t, spec)
    ensures TailText(t) != "" && NUL !in TailText(t)
    ensures ParseCluster(TailText(t), NextWord(t) + ws, optstring)
            == Prepend(TailEvents(t), 1 + |NextWord(t)|, ParseWords(ws, optstring))
  {
    hide ParseWords, KindOf;
    var cs: CString, rest := TailText(t), NextWord(t) + ws;
    match t
    case Attached(c, arg) => assert cs[1..] == arg && rest == ws;
    case Separate(c, w) => assert cs[1..] == "" && rest[0] == w && rest[1..] == ws;
    case Bare(c) => assert cs[1..] == "" && rest == ws;
  }

  lemma {:induction false} LetterEventsAppend(a: string, b: string, spec: Spec)
    ensures LetterEvents(a + b, spec) == LetterEvents(a, spec) + LetterEvents(b, spec)
  {
    if a == "" {
      assert a + b == b;
    } else {
      assert (a + b)[1..] == a[1..] + b;
      LetterEventsAppend(a[1..], b, spec);
    }
  }

  /** The letters of a word behind its dash parse to the events of the word. */
  lemma ClusterParses(u: Unit, ws: seq<Ptr>, optstring: CString, spec: Spec)
    requires Describes(spec, optstring) && u.Options? && LegalUnit(u, spec)
    ensures NUL !in u.letters + TailText(u.tail)
    ensures ParseCluster(u.letters + TailText(u.tail), NextWord(u.tail) + ws, optstring)
            == Prepend(UnitEvents(u, spec), 1 + |NextWord(u.tail)|, ParseWords(ws, optstring))
  {
    hide ParseWords, ParseCluster, LetterEvents, Describes;
    var letters, rest := u.letters, NextWord(u.tail) + ws;
    var p := ParseWords(ws, optstring);
    if u.tail.NoTail? {
      var n := |letters| - 1;
      assert letters + "" == letters && letters == letters[..n] + [letters[n]] && rest == ws;
      LettersParse(letters[..n], [letters[n]], ws, optstring, spec);
      LastLetter(letters[n], ws, optstring, spec);
      LetterEventsAppend(letters[..n], [letters[n]], spec);
      PrependTwice(LetterEvents(letters[..n], spec), 0, LetterEvents([letters[n]], spec), 1, p);
      assert UnitEvents(u, spec) == LetterEvents(letters, spec);
    } else {
      TailParses(u.tail, ws, optstring, spec);
      LettersParse(letters, TailText(u.tail), rest, optstring, spec);
      PrependTwice(LetterEvents(letters, spec), 0, TailEvents(u.tail), 1 + |NextWord(u.tail)|, p);
    }
  }

  /** A word that begins with a dash and has letters behind it. */
  lemma WordEntered(body: CString, ws: seq<Ptr>, optstring: CString)
    requires body != "" && body != "-"
    ensures NUL !in "-" + body
    ensures ParseWords([Word("-" + body)] + ws, optstring) == ParseCluster(body, ws, optstring)
  {
    hide ParseCluster;
    var w: CString := "-" + body;
    var all := [Word(w)] + ws;
    assert all[1..] == ws && w[1..] == body;
    assert w != "-" && w != "--" by {
      assert w[1] == body[0];
      assert "--"[1..] == "-";
    }
  }

  lemma UnitParses(u: Unit, ws: seq<Ptr>, optstring: CString, spec: Spec)
    requires Describes(spec, optstring) && LegalUnit(u, spec)
    ensures ParseWords(UnitWords(u, spec) + ws, optstring)
            == Prepend(UnitEvents(u, spec), |UnitWords(u, spec)|, ParseWords(ws, optstring))
  {
    hide ParseWords, ParseCluster, KindOf, LetterEvents, TailEvents;
    match u
    case Options(letters, tail) =>
      ClusterParses(u, ws, optstring, spec);
      WordEntered(letters + TailText(tail), NextWord(tail) + ws, optstring);
      assert UnitWords(u, spec) + ws == [Word("-" + (letters + TailText(tail)))] + (NextWord(tail) + ws);
    case InPlace(w) =>
      OperandParses(w, ws, optstring);
  }

  lemma OperandParses(w: CString, ws: seq<Ptr>, optstring: CString)
    requires InOrder(optstring) && At(w, 0) != '-'
    ensures ParseWords([Word(w)] + ws, optstring) == Prepend([Operand(w)], 1, ParseWords(ws, optstring))
  {
    assert ([Word(w)] + ws)[1..] == ws;
  }

  /** Option words of any style in front of `ws` parse to their options, and then `ws` is parsed. */
  lemma {:induction false} OptionsRoundTrip(us: seq<Unit>, ws: seq<Ptr>, optstring: CString, spec: Spec)
    requires Describes(spec, optstring) && AllLegal(us, spec)
    ensures ParseWords(AllWords(us, spec) + ws, optstring)
            == Prepend(AllEvents(us, spec), |AllWords(us, spec)|, ParseWords(ws, optstring))
  {
    hide ParseWords, UnitWords, UnitEvents, LegalUnit, Describes;
    if us == [] {
      assert AllWords(us, spec) + ws == ws;
    } else {
      var rest := AllWords(us[1..], spec);
      OptionsRoundTrip(us[1..], ws, optstring, spec);
      UnitParses(us[0], rest + ws, optstring, spec);
      assert AllWords(us, spec) + ws == UnitWords(us[0], spec) + (rest + ws);
      PrependTwice(UnitEvents(us[0], spec), |UnitWords(us[0], spec)|, AllEvents(us[1..], spec), |rest|,
                   ParseWords(ws, optstring));
    }
  }

  /** The words that the end takes: `--`, or the word and the argument that is not there. */
  function EndingTaken(e: Ending): nat {
    match e
    case Operands(dashes, _) => if dashes then 1 else 0
    case Lacking(_, _) => 2
  }

  lemma EndingParses(e: Ending, optstring: CString, spec: Spec)
    requires Describes(spec, optstring) && LegalEnding(e, spec)
    ensures ParseWords(EndingWords(e, spec), optstring) == Parse(EndingEvents(e, spec), EndingTaken(e))
  {
    var words := EndingWords(e, spec);
    match e
    case Operands(dashes, ws) =>
      assert dashes ==> words[0] == Word("--");
      assert !dashes ==> words == ws;
    case Lacking(letters, c) =>
      LackingParses(letters, c, optstring, spec);
  }

  lemma LackingParses(letters: CString, c: char, optstring: CString, spec: Spec)
    requires Describes(spec, optstring) && LegalEnding(Lacking(letters, c), spec)
    ensures NUL !in "-" + (letters + [c])
    ensures ParseWords([Word("-" + (letters + [c]))], optstring)
            == Parse(LetterEvents(letters, spec) + [Missing(c)], 2)
  {
    hide ParseWords, KindOf, LetterEvents, Continue;
    var more: CString := [c];
    LettersParse(letters, more, [], optstring, spec);
    WordEntered(letters + [c], [], optstring);
    assert [Word("-" + (letters + [c]))] + [] == [Word("-" + (letters + [c]))];
    assert more[1..] == "" && more[0] == c;
  }

  // ---------- the calls that show them ----------

  function Observed(es: seq<Event>, before: Call, optstring: CString): seq<Call> {
    ObserveAll(es, before.optarg, before.optopt, optstring)
  }

  lemma {:induction false} ObservedAppend(a: seq<Event>, b: seq<Event>, before: Call, optstring: CString)
    ensures var first := Observed(a, before, optstring);
            Observed(a + b, before, optstring) == first + Observed(b, Last(first, before), optstring)
  {
    hide Observe;
    if a == [] {
      assert a + b == b;
    } else {
      assert (a + b)[1..] == a[1..] + b;
      ObservedAppend(a[1..], b, Observe(a[0], before.optarg, before.optopt, optstring), optstring);
    }
  }

  lemma {:induction false} LettersObserved(letters: string, spec: Spec, before: Call, optstring: CString)
    ensures Observed(LetterEvents(letters, spec), before, optstring) == LetterCalls(letters, spec, before)
  {
    if letters != "" {
      var e := LetterEvents(letters, spec)[0];
      LettersObserved(letters[1..], spec, Observe(e, before.optarg, before.optopt, optstring), optstring);
      assert LetterEvents(letters, spec)[1..] == LetterEvents(letters[1..], spec);
    }
  }

  lemma OneObserved(e: Event, before: Call, optstring: CString)
    ensures Observed([e], before, optstring) == [Observe(e, before.optarg, before.optopt, optstring)]
  {
    var first := Observe(e, before.optarg, before.optopt, optstring);
    assert [e][1..] == [] && ObserveAll([], first.optarg, first.optopt, optstring) == [];
  }

  lemma UnitObserved(u: Unit, spec: Spec, before: Call, optstring: CString)
    ensures Observed(UnitEvents(u, spec), before, optstring) == UnitCalls(u, spec, before)
  {
    if u.Options? {
      hide LetterEvents, LetterCalls;
      LettersObserved(u.letters, spec, before, optstring);
      ObservedAppend(LetterEvents(u.letters, spec), TailEvents(u.tail), before, optstring);
      if !u.tail.NoTail? {
        OneObserved(TailEvents(u.tail)[0], Last(LetterCalls(u.letters, spec, before), before), optstring);
      }
    } else {
      OneObserved(Operand(u.w), before, optstring);
    }
  }

  lemma {:induction false} AllObserved(us: seq<Unit>, spec: Spec, before: Call, optstring: CString)
    ensures Observed(AllEvents(us, spec), before, optstring) == AllCalls(us, spec, before)
  {
    hide UnitEvents, UnitCalls, Observed;
    if us == [] {
      assert Observed([], before, optstring) == [] by { NothingObserved(before, optstring); }
    } else {
      UnitObserved(us[0], spec, before, optstring);
      ObservedAppend(UnitEvents(us[0], spec), AllEvents(us[1..], spec), before, optstring);
      AllObserved(us[1..], spec, Last(UnitCalls(us[0], spec, before), before), optstring);
    }
  }

  lemma NothingObserved(before: Call, optstring: CString)
    ensures Observed([], before, optstring) == []
  {
  }

  lemma EndingObserved(e: Ending, spec: Spec, before: Call, optstring: CString)
    requires Describes(spec, optstring)
    ensures Observed(EndingEvents(e, spec), before, optstring) == EndingCalls(e, spec, before)
  {
    if e.Lacking? {
      hide LetterEvents, LetterCalls, KindOf;
      LettersObserved(e.letters, spec, before, optstring);
      ObservedAppend(LetterEvents(e.letters, spec), [Missing(e.c)], before, optstring);
      OneObserved(Missing(e.c), Last(LetterCalls(e.letters, spec, before), before), optstring);
    }
  }

  /** What the parser has to say of the line, and where it stops. */
  lemma LineParses(name: Ptr, us: seq<Unit>, e: Ending, optstring: CString, spec: Spec)
    requires Describes(spec, optstring) && AllLegal(us, spec) && LegalEnding(e, spec)
    ensures var argv := CommandLine(name, us, e, spec);
            var p := From(argv, 1, 0, optstring);
            && p.events == AllEvents(us, spec) + EndingEvents(e, spec)
            && 1 + p.consumed <= |argv|
            && argv[1 + p.consumed..] == if e.Operands? then e.ws + [Null] else []
  {
    hide ParseWords, AllWords, AllEvents, EndingEvents, Describes, LegalUnit;
    var argv := CommandLine(name, us, e, spec);
    var tail := EndingWords(e, spec);
    OptionsRoundTrip(us, tail, optstring, spec);
    EndingParses(e, optstring, spec);
    assert argv[1..|argv| - 1] == AllWords(us, spec) + tail;
  }

  lemma LineObserved(us: seq<Unit>, e: Ending, spec: Spec, before: Call, optstring: CString)
    requires Describes(spec, optstring)
    ensures var first := AllCalls(us, spec, before);
            ObserveAll(AllEvents(us, spec) + EndingEvents(e, spec), before.optarg, before.optopt, optstring)
            == first + EndingCalls(e, spec, Last(first, before))
  {
    hide AllEvents, AllCalls, EndingCalls, EndingEvents, Describes;
    AllObserved(us, spec, before, optstring);
    EndingObserved(e, spec, Last(AllCalls(us, spec, before), before), optstring);
    ObservedAppend(AllEvents(us, spec), EndingEvents(e, spec), before, optstring);
  }

  /**
   * Driving getopt over a command line, from the start or restarted by an optind of 0, returns what the
   * declarations say of its options, in order. It stops at the first operand, or behind the null pointer when an
   * argument was missing. The globals are taken up as they were.
   */
  method Drive(g: Getopt, name: Ptr, us: seq<Unit>, e: Ending, spec: Spec) returns (calls: seq<Call>)
    requires WellFormed(spec) && AllLegal(us, spec) && LegalEnding(e, spec)
    requires g.optind == 0 || (g.optind == 1 && g.optpos == 0)
    modifies g
    ensures var before := Call(0, old(g.optarg), old(g.optopt));
            var first := AllCalls(us, spec, before);
            calls == first + EndingCalls(e, spec, Last(first, before))
    ensures 0 <= g.optind <= |CommandLine(name, us, e, spec)|
    ensures CommandLine(name, us, e, spec)[g.optind..] == if e.Operands? then e.ws + [Null] else []
  {
    hide From, AllEvents, AllCalls, EndingCalls, EndingEvents, Describes, OptString, CommandLine, ObserveAll;
    var argv := CommandLine(name, us, e, spec);
    OptStringDescribes(spec);
    var optstring: CString := OptString(spec);
    LineParses(name, us, e, optstring, spec);
    LineObserved(us, e, spec, Call(0, g.optarg, g.optopt), optstring);
    LineIsVector(name, us, e, spec);
    calls := g.ParseAll(argv, optstring);
  }

  lemma LineIsVector(name: Ptr, us: seq<Unit>, e: Ending, spec: Spec)
    requires AllLegal(us, spec) && LegalEnding(e, spec)
    ensures ArgVector(CommandLine(name, us, e, spec)) && |CommandLine(name, us, e, spec)| >= 2
  {
  }

  /** The same with the globals that a program starts with. */
  method DriveCommandLine(name: Ptr, us: seq<Unit>, e: Ending, spec: Spec)
    returns (calls: seq<Call>, optind: int)
    requires WellFormed(spec) && AllLegal(us, spec) && LegalEnding(e, spec)
    ensures var before := Call(0, Null, NUL);
            var first := AllCalls(us, spec, before);
            calls == first + EndingCalls(e, spec, Last(first, before))
    ensures 0 <= optind <= |CommandLine(name, us, e, spec)|
    ensures CommandLine(name, us, e, spec)[optind..] == if e.Operands? then e.ws + [Null] else []
  {
    hide AllCalls, EndingCalls, CommandLine;
    var g := new Getopt();
    calls := Drive(g, name, us, e, spec);
    optind := g.optind;
  }

  // ---------- every command line is written so ----------

  lemma {:induction false} SplitCluster(body: CString, spec: Spec) returns (letters: CString, more: CString)
    ensures body == letters + more && Simple(letters, spec)
    ensures more != "" ==> Declared(spec.decls, more[0]) in {Required, Optional}
  {
    if body == "" || Declared(spec.decls, body[0]) in {Required, Optional} {
      letters, more := "", body;
    } else {
      letters, more := SplitCluster(body[1..], spec);
      var k := Declared(spec.decls, body[0]);
      assert !k.Required? && !k.Optional?;
      assert k.NoArgument? || k.Unknown?;
      letters := [body[0]] + letters;
    }
  }

  /** The first unit of some words, none at the end, or the end. */
  datatype Start = First(u: Unit) | End(e: Ending)

  lemma FirstOf(ws: seq<Ptr>, spec: Spec) returns (start: Start)
    ensures match start
            case First(u) => LegalUnit(u, spec) && |ws| >= |UnitWords(u, spec)| > 0
                             && ws[..|UnitWords(u, spec)|] == UnitWords(u, spec)
            case End(e) => LegalEnding(e, spec) && EndingWords(e, spec) == ws
  {
    if ws == [] || ws[0].Null? || ws[0].s == "-" || (At(ws[0].s, 0) != '-' && !spec.mode.Dash?) {
      return End(Operands(false, ws));
    }
    var w := ws[0].s;
    if w == "--" {
      assert ws == [Word("--")] + ws[1..];
      return End(Operands(true, ws[1..]));
    }
    if At(w, 0) != '-' {
      return First(InPlace(w));
    }
    start := FirstCluster(w[1..], ws[1..], spec);
    assert w == "-" + w[1..] && ws == [Word(w)] + ws[1..];
  }

  /** The word with these letters behind its dash. */
  lemma FirstCluster(body: CString, rest: seq<Ptr>, spec: Spec) returns (start: Start)
    requires body != "" && body != "-"
    ensures NUL !in "-" + body
    ensures var ws := [Word("-" + body)] + rest;
            match start
            case First(u) => LegalUnit(u, spec) && |ws| >= |UnitWords(u, spec)| > 0
                             && ws[..|UnitWords(u, spec)|] == UnitWords(u, spec)
            case End(e) => LegalEnding(e, spec) && EndingWords(e, spec) == ws
  {
    var letters, more := SplitCluster(body, spec);
    if more != "" {
      assert more[0] in more && more == [more[0]] + more[1..];
      assert |more| == 1 ==> letters + [more[0]] == body;
    }
    if more == "" {
      assert letters + "" == body;
      start := First(Options(letters, NoTail));
    } else if |more| > 1 {
      start := First(Options(letters, Attached(more[0], more[1..])));
    } else if Declared(spec.decls, more[0]) == Optional {
      start := First(Options(letters, Bare(more[0])));
    } else if rest == [] {
      start := End(Lacking(letters, more[0]));
    } else {
      start := First(Options(letters, Separate(more[0], rest[0])));
    }
  }

  /** Whatever the words are, they are units and an ending. */
  lemma {:induction false} EveryLine(ws: seq<Ptr>, spec: Spec) returns (us: seq<Unit>, e: Ending)
    ensures AllLegal(us, spec) && LegalEnding(e, spec)
    ensures AllWords(us, spec) + EndingWords(e, spec) == ws
    decreases |ws|
  {
    hide LegalUnit, UnitWords, LegalEnding, EndingWords;
    var start := FirstOf(ws, spec);
    match start
    case End(ending) =>
      us, e := [], ending;
    case First(u) =>
      var n := |UnitWords(u, spec)|;
      var more;
      more, e := EveryLine(ws[n..], spec);
      us := [u] + more;
      assert us[1..] == more && ws == ws[..n] + ws[n..];
  }
}
