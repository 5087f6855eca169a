// The command-line language that getopt.h parses, as a recursive parser over the
// whole argument vector (section 12.2 of the POSIX.1-2017 Base Definitions, with
// the leading '-', '+' and ':' of the option string and the "::" of optional arguments).
module GetoptReference {
  import opened CTypes

  /** A `char *`: null, or pointing at a string. */
  datatype Ptr = Null | Word(s: CString)

  datatype Kind = Unknown | NoArgument | Required | Optional

  datatype Event =
    | Flag(c: char)                   // an option without argument
    | Argument(c: char, arg: Ptr)     // an option with its argument
    | Absent(c: char)                 // an option whose optional argument is not there
    | Missing(c: char)                // an option whose argument is not there
    | Unrecognized(c: char)
    | Operand(w: CString)             // returned in order when the option string begins with '-'

  /** The events of a parse, and how many words it moved past. */
  datatype Parse = Parse(events: seq<Event>, consumed: nat)

  /** The option letters: the option string without its mode character. */
  function Letters(optstring: CString): CString {
    if At(optstring, 0) == '-' || At(optstring, 0) == '+' then optstring[1..] else optstring
  }

  predicate InOrder(optstring: CString) {
    At(optstring, 0) == '-'
  }

  predicate Silent(optstring: CString) {
    At(Letters(optstring), 0) == ':'
  }

  /** Where a letter stands first, or the length of the string. */
  function IndexOf(s: string, c: char): (i: nat)
    ensures i <= |s|
  {
    if s == "" || s[0] == c then 0 else 1 + IndexOf(s[1..], c)
  }

  function KindOf(letters: CString, c: char): Kind {
    var i := IndexOf(letters, c);
    if c == ':' || i == |letters| then Unknown
    else if At(letters, i + 1) != ':' then NoArgument
    else if At(letters, i + 2) != ':' then Required
    else Optional
  }

  function Then(e: Event, words: nat, p: Parse): (q: Parse)
    ensures q.events != [] && q.events[1..] == p.events
  {
    Parse([e] + p.events, words + p.consumed)
  }

  function ParseWords(ws: seq<Ptr>, optstring: CString): Parse
    decreases |ws|, 0, 0
  {
    if ws == [] || ws[0].Null? then Parse([], 0)
    else
      var w := ws[0].s;
      if At(w, 0) != '-' then
        if InOrder(optstring) then Then(Operand(w), 1, ParseWords(ws[1..], optstring)) else Parse([], 0)
      else if w == "-" then Parse([], 0)
      else if w == "--" then Parse([], 1)
      else ParseCluster(w[1..], ws[1..], optstring)
  }

  /** The letters `cs` are left in the current word; `rest` are the words after it. */
  function ParseCluster(cs: CString, rest: seq<Ptr>, optstring: CString): Parse
    requires cs != ""
    decreases |rest|, |cs|, 0
  {
    var c, attached: CString := cs[0], cs[1..];
    match KindOf(Letters(optstring), c)
    case Unknown => Continue(Unrecognized(c), attached, rest, optstring)
    case NoArgument => Continue(Flag(c), attached, rest, optstring)
    case Required =>
      if attached != "" then Then(Argument(c, Word(attached)), 1, ParseWords(rest, optstring))
      else if rest == [] then Parse([Missing(c)], 2)
      else Then(Argument(c, rest[0]), 2, ParseWords(rest[1..], optstring))
    case Optional =>
      if attached != "" then Then(Argument(c, Word(attached)), 1, ParseWords(rest, optstring))
      else Then(Absent(c), 1, ParseWords(rest, optstring))
  }

  function Continue(e: Event, cs: CString, rest: seq<Ptr>, optstring: CString): Parse
    decreases |rest|, |cs|, 1
  {
    if cs == "" then Then(e, 1, ParseWords(rest, optstring))
    else Then(e, 0, ParseCluster(cs, rest, optstring))
  }

  // ---------- what a caller of getopt sees of an event ----------

  /** The result of one call, with the two globals it sets. */
  datatype Call = Call(result: int, optarg: Ptr, optopt: char)

  function Observe(e: Event, optarg: Ptr, optopt: char, optstring: CString): Call {
    match e
    case Flag(c) => Call(c as int, optarg, optopt)
    case Argument(c, arg) => Call(c as int, arg, optopt)
    case Absent(c) => Call(c as int, Null, optopt)
    case Missing(c) => Call(if Silent(optstring) then ':' as int else '?' as int, Null, c)
    case Unrecognized(c) => Call('?' as int, optarg, c)
    case Operand(w) => Call(1, Word(w), optopt)
  }

  /** The calls for a list of events; a global keeps its value where an event does not set it. */
  function ObserveAll(es: seq<Event>, optarg: Ptr, optopt: char, optstring: CString): seq<Call> {
    if es == [] then []
    else
      var first := Observe(es[0], optarg, optopt, optstring);
      [first] + ObserveAll(es[1..], first.optarg, first.optopt, optstring)
  }
}
