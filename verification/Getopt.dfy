// getopt.h: the resumable parser. One call returns one event; the position inside a
// cluster of option letters survives in the object between calls.
module Getopt {
  import opened CTypes
  import opened GetoptReference

  /** The vector a C program is started with: `argc` words and a null pointer. */
  predicate ArgVector(argv: seq<Ptr>) {
    argv != [] && argv[|argv| - 1].Null?
  }

  /** Between calls: `pos` is 0, or strictly inside an option word behind its first letter. */
  predicate Between(argv: seq<Ptr>, index: int, pos: int) {
    && 1 <= index <= |argv|
    && (pos == 0 || (
          && index < |argv| - 1
          && argv[index].Word?
          && 2 <= pos < |argv[index].s|
          && argv[index].s[0] == '-'))
  }

  /** What the reference parser still has to say from word `index` and position `pos` in it. */
  function From(argv: seq<Ptr>, index: int, pos: nat, optstring: CString): Parse
    requires ArgVector(argv) && 1 <= index <= |argv|
    requires pos > 0 ==> index < |argv| - 1 && argv[index].Word? && pos < |argv[index].s|
  {
    var argc := |argv| - 1;
    if index > argc then Parse([], 0)
    else if pos == 0 then ParseWords(argv[index..argc], optstring)
    else ParseCluster(argv[index].s[pos..], argv[index + 1..argc], optstring)
  }

  /** A word is either an operand, an end marker, or a cluster that starts behind its dash. */
  lemma WordStep(argv: seq<Ptr>, index: int, optstring: CString)
    requires ArgVector(argv) && 1 <= index <= |argv|
    ensures index >= |argv| - 1 || argv[index].Null? ==> From(argv, index, 0, optstring) == Parse([], 0)
    ensures index < |argv| - 1 && argv[index].Word? ==>
              var w := argv[index].s;
              From(argv, index, 0, optstring) ==
              if At(w, 0) != '-' then
                if InOrder(optstring) then Then(Operand(w), 1, From(argv, index + 1, 0, optstring)) else Parse([], 0)
              else if w == "-" then Parse([], 0)
              else if w == "--" then Parse([], 1)
              else From(argv, index, 1, optstring)
  {
    if index < |argv| - 1 {
      assert argv[index..|argv| - 1][1..] == argv[index + 1..|argv| - 1];
    }
  }

  lemma ContinueStep(e: Event, cs: CString, rest: seq<Ptr>, optstring: CString)
    ensures Continue(e, cs, rest, optstring) ==
            if cs == "" then Then(e, 1, ParseWords(rest, optstring)) else Then(e, 0, ParseCluster(cs, rest, optstring))
  {
  }

  /** One letter of a cluster, at word `index` and position `pos`. */
  lemma LetterStep(argv: seq<Ptr>, index: int, pos: nat, optstring: CString)
    requires ArgVector(argv) && 1 <= index < |argv| - 1
    requires argv[index].Word? && 1 <= pos < |argv[index].s|
    ensures var argc, w := |argv| - 1, argv[index].s;
            var c, last := w[pos], pos + 1 == |w|;
            var p := From(argv, index, pos, optstring);
            var next := if last then index + 1 else index;
            var after := From(argv, next, if last then 0 else pos + 1, optstring);
            match KindOf(Letters(optstring), c)
            case Unknown => p == Then(Unrecognized(c), next - index, after)
            case NoArgument => p == Then(Flag(c), next - index, after)
            case Required =>
              if !last then p == Then(Argument(c, Word(w[pos + 1..])), 1, From(argv, index + 1, 0, optstring))
              else if index + 1 == argc then p == Parse([Missing(c)], 2)
              else p == Then(Argument(c, argv[index + 1]), 2, From(argv, index + 2, 0, optstring))
            case Optional =>
              if !last then p == Then(Argument(c, Word(w[pos + 1..])), 1, From(argv, index + 1, 0, optstring))
              else p == Then(Absent(c), 1, after)
  {
    var argc, w := |argv| - 1, argv[index].s;
    var rest := argv[index + 1..argc];
    assert w[pos..][1..] == w[pos + 1..];
    if index + 1 < argc {
      assert rest[1..] == argv[index + 2..argc];
    }
    ContinueStep(Unrecognized(w[pos]), w[pos + 1..], rest, optstring);
    ContinueStep(Flag(w[pos]), w[pos + 1..], rest, optstring);
  }

  /** The globals of getopt.h and the static position inside getopt(). */
  datatype Globals = Globals(optind: int, optpos: nat, optarg: Ptr, optopt: char)

  /** The characters of the current word that no call has looked at. */
  function CharsLeft(argv: seq<Ptr>, g: Globals): int
    requires ArgVector(argv) && Between(argv, g.optind, g.optpos)
  {
    if g.optind < |argv| - 1 && argv[g.optind].Word? then |argv[g.optind].s| - g.optpos else 0
  }

  /** Every call moves on: to a later word, or further into the same one. */
  predicate Progress(argv: seq<Ptr>, g: Globals, g': Globals)
    requires ArgVector(argv) && Between(argv, g.optind, g.optpos) && Between(argv, g'.optind, g'.optpos)
  {
    g'.optind > g.optind || (g'.optind == g.optind && CharsLeft(argv, g') < CharsLeft(argv, g))
  }

  class Getopt {
    var optind: int
    var optpos: nat
    var optarg: Ptr
    var optopt: char

    constructor ()
      ensures State() == Globals(1, 0, Null, NUL)
    {
      optind, optpos, optarg, optopt := 1, 0, Null, NUL;
    }

    function State(): Globals
      reads this
    {
      Globals(optind, optpos, optarg, optopt)
    }

    ghost predicate Valid(argv: seq<Ptr>)
      reads this
    {
      Between(argv, optind, optpos)
    }

    ghost function Remaining(argv: seq<Ptr>, optstring: CString): Parse
      requires ArgVector(argv) && Valid(argv)
      reads this
    {
      From(argv, optind, optpos, optstring)
    }

    /** The index at which the parse will stop. */
    ghost function Stop(argv: seq<Ptr>, optstring: CString): int
      requires ArgVector(argv) && Valid(argv)
      reads this
    {
      optind + Remaining(argv, optstring).consumed
    }

    /** The search loop of getopt: `i` ends just behind the first `c`, or behind the terminator. */
    static method Search(letters: CString, c: char) returns (d: char, i: nat)
      requires c != NUL
      ensures d == c <==> IndexOf(letters, c) < |letters|
      ensures d == c ==> i == IndexOf(letters, c) + 1
    {
      i := 0;
      d := NUL;
      while true
        invariant i <= |letters| && IndexOf(letters, c) == i + IndexOf(letters[i..], c)
        decreases |letters| - i
      {
        d := At(letters, i);
        AtEnd(letters, i);
        i := i + 1;
        if d == NUL || d == c {
          return;
        }
        assert letters[i - 1..][1..] == letters[i..];
      }
    }

    /** The part of getopt behind the fetch of the letter `c`: look it up and find its argument. */
    method Lookup(argv: seq<Ptr>, optstring: CString, word: CString, c: char) returns (r: int)
      requires ArgVector(argv) && c != NUL
      requires 1 <= optind < |argv| && optpos < |word|
      requires optpos > 0 ==> optind < |argv| - 1
      modifies this
      ensures var letters := Letters(optstring);
              var g := old(State());
              var k := KindOf(letters, c);
              var missing := k.Required? && g.optpos == 0 && g.optind == |argv| - 1;
              var next := if g.optpos > 0 then Word(word[g.optpos..]) else argv[g.optind];
              Globals(optind, optpos, optarg, optopt) ==
              if k.Unknown? then g.(optopt := c)
              else if k.NoArgument? then g
              else if k.Optional? && g.optpos == 0 then g.(optarg := Null)
              else Globals(g.optind + 1, 0, next, if missing then c else g.optopt)
      ensures var letters := Letters(optstring);
              var k := KindOf(letters, c);
              var missing := k.Required? && old(optpos) == 0 && old(optind) == |argv| - 1;
              r == if k.Unknown? then '?' as int
                   else if missing then (if Silent(optstring) then ':' as int else '?' as int)
                   else c as int
    {
      hide IndexOf;
      var argc := |argv| - 1;
      var letters := Letters(optstring);
      var d, i := Search(letters, c);
      if d != c || c == ':' {
        optopt := c;
        return '?' as int;
      }
      if At(letters, i) == ':' {
        optarg := Null;
        if At(letters, i + 1) != ':' || optpos > 0 {
          optarg := argv[optind];
          if optpos > 0 {
            optarg := Word(word[optpos..]);
          }
          optind := optind + 1;
          optpos := 0;
        }
        if optind > argc {
          optopt := c;
          if At(letters, 0) == ':' {
            return ':' as int;
          }
          return '?' as int;
        }
      }
      return c as int;
    }

    /** The part of getopt that fetches the letter at `optpos` and moves past it. */
    method Fetch(argv: seq<Ptr>, optstring: CString) returns (r: int)
      requires ArgVector(argv) && 1 <= optind < |argv| - 1 && argv[optind].Word?
      requires 1 <= optpos < |argv[optind].s| && argv[optind].s[0] == '-'
      modifies this
      ensures Valid(argv)
      ensures var p := From(argv, old(optind), old(optpos), optstring);
              && p.events != []
              && Call(r, optarg, optopt) == Observe(p.events[0], old(optarg), old(optopt), optstring)
              && Remaining(argv, optstring).events == p.events[1..]
              && Stop(argv, optstring) == old(optind) + p.consumed
              && (optind > old(optind) || (optind == old(optind) && optpos > old(optpos)))
    {
      hide From, ParseWords, ParseCluster, IndexOf, KindOf;
      var word := argv[optind].s;
      var c := word[optpos];
      LetterStep(argv, optind, optpos, optstring);
      AtEnd(word, optpos);
      optpos := optpos + 1;
      AtEnd(word, optpos);
      if At(word, optpos) == NUL {
        optind := optind + 1;
        optpos := 0;
      }
      r := Lookup(argv, optstring, word, c);
      WordStep(argv, |argv|, optstring);
    }

    /** The globals as a call takes them up: an `optind` of 0 asks for a fresh start. */
    function Resumed(): Globals
      reads this
    {
      if optind == 0 then Globals(1, 0, optarg, optopt) else State()
    }

    /**
     * One call. Either the reference parser has nothing more to say, and -1 comes back with
     * optind where the parse stops; or its next event comes back, and what remains is the rest.
     */
    method Next(argv: seq<Ptr>, optstring: CString) returns (r: int)
      requires ArgVector(argv) && (optind == 0 || Valid(argv))
      modifies this
      ensures Valid(argv)
      ensures var g := old(Resumed());
              var p := From(argv, g.optind, g.optpos, optstring);
              if p.events == [] then
                && r == -1
                && State() == g.(optind := g.optind + p.consumed, optpos := if p.consumed > 0 then 0 else g.optpos)
              else
                && Call(r, optarg, optopt) == Observe(p.events[0], g.optarg, g.optopt, optstring)
                && Remaining(argv, optstring).events == p.events[1..]
                && Stop(argv, optstring) == g.optind + p.consumed
                && Progress(argv, g, State())
    {
      hide From, ParseWords, ParseCluster;
      if optind == 0 {
        optpos := 0;
        optind := 1;
      }
      var argc := |argv| - 1;
      WordStep(argv, optind, optstring);
      if optind >= argc || argv[optind].Null? {
        return -1;
      }
      var word := argv[optind].s;
      AtEnd(word, 0);
      if At(word, 0) != '-' {
        if At(optstring, 0) == '-' {
          optarg := argv[optind];
          optind := optind + 1;
          return 1;
        }
        return -1;
      }
      AtEnd(word, 1);
      if At(word, 1) == NUL {
        return -1;
      }
      AtEnd(word, 2);
      if At(word, 1) == '-' && At(word, 2) == NUL {
        optind := optind + 1;
        return -1;
      }
      if optpos == 0 {
        optpos := optpos + 1;
      }
      r := Fetch(argv, optstring);
    }

    /** The caller's loop: call until -1. It ends, and what it saw is the reference parse. */
    method ParseAll(argv: seq<Ptr>, optstring: CString) returns (calls: seq<Call>)
      requires ArgVector(argv) && (optind == 0 || Valid(argv))
      modifies this
      ensures var g := old(Resumed());
              var p := From(argv, g.optind, g.optpos, optstring);
              && calls == ObserveAll(p.events, g.optarg, g.optopt, optstring)
              && optind == g.optind + p.consumed
    {
      hide From;
      ghost var g := Resumed();
      ghost var all := From(argv, g.optind, g.optpos, optstring);
      calls := [];
      var r := Next(argv, optstring);
      assert r == -1 <==> all.events == [];
      while r != -1
        invariant Valid(argv)
        invariant r == -1 ==> calls == ObserveAll(all.events, g.optarg, g.optopt, optstring)
        invariant r == -1 ==> optind == g.optind + all.consumed
        invariant r != -1 ==>
                    && Stop(argv, optstring) == g.optind + all.consumed
                    && calls + [Call(r, optarg, optopt)]
                       + ObserveAll(Remaining(argv, optstring).events, optarg, optopt, optstring)
                       == ObserveAll(all.events, g.optarg, g.optopt, optstring)
        decreases if r == -1 then 0 else 1, |argv| - optind, CharsLeft(argv, State())
      {
        calls := calls + [Call(r, optarg, optopt)];
        r := Next(argv, optstring);
      }
    }
  }
}
