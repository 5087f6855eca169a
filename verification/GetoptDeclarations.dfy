// Option strings, written out: a mode, leading colons, and declared letters. Every option
// string is of that form, and the parser finds the letters as they are declared.
module GetoptDeclarations {
  import opened CTypes
  import opened GetoptReference

  /** What stands first: nothing, '+', or the '-' that returns operands in order. */
  datatype Mode = Plain | Plus | Dash

  /** A letter and the number of colons behind it. */
  datatype Declaration = Declaration(c: char, colons: nat)

  datatype Spec = Spec(mode: Mode, lead: nat, decls: seq<Declaration>)

  function Colons(n: nat): string {
    seq(n, _ => ':')
  }

  function DeclarationText(ds: seq<Declaration>): string {
    if ds == [] then "" else [ds[0].c] + Colons(ds[0].colons) + DeclarationText(ds[1..])
  }

  function OptString(spec: Spec): string {
    (match spec.mode case Plain => "" case Plus => "+" case Dash => "-")
    + (Colons(spec.lead) + DeclarationText(spec.decls))
  }

  predicate AreLetters(ds: seq<Declaration>) {
    forall i :: 0 <= i < |ds| ==> ds[i].c != ':' && ds[i].c != NUL
  }

  /** Without a mode, the first letter must not look like one. */
  predicate WellFormed(spec: Spec) {
    && AreLetters(spec.decls)
    && (spec.mode.Plain? && spec.lead == 0 && spec.decls != [] ==> spec.decls[0].c !in {'-', '+'})
  }

  /** The first declaration of a letter counts: no colon, one, or more. */
  function Declared(ds: seq<Declaration>, c: char): Kind {
    if ds == [] then Unknown
    else if ds[0].c != c then Declared(ds[1..], c)
    else
      match ds[0].colons
      case 0 => NoArgument
      case 1 => Required
      case _ => Optional
  }

  /** What the parser takes from an option string is what the specification declares. */
  ghost predicate Describes(spec: Spec, optstring: CString) {
    && (forall c :: KindOf(Letters(optstring), c) == Declared(spec.decls, c))
    && (InOrder(optstring) <==> spec.mode.Dash?)
    && (Silent(optstring) <==> spec.lead > 0)
  }

  lemma {:induction false} IndexBehind(s: string, t: string, c: char)
    requires c !in s
    ensures IndexOf(s + t, c) == |s| + IndexOf(t, c)
  {
    if s == "" {
      assert s + t == t;
    } else {
      assert (s + t)[1..] == s[1..] + t && (s + t)[0] == s[0];
      IndexBehind(s[1..], t, c);
    }
  }

  lemma KindBehind(s: CString, t: CString, c: char)
    requires c !in s
    ensures NUL !in s + t && KindOf(s + t, c) == KindOf(t, c)
  {
    hide IndexOf;
    IndexBehind(s, t, c);
    var i := IndexOf(t, c);
    if i < |t| {
      assert At(s + t, |s| + i + 1) == At(t, i + 1);
      if i + 1 < |t| {
        assert At(s + t, |s| + i + 2) == At(t, i + 2);
      }
    }
  }

  lemma FirstKind(c: char, colons: nat, more: CString)
    requires c != ':' && c != NUL && At(more, 0) != ':'
    ensures NUL !in [c] + Colons(colons) + more
    ensures KindOf([c] + Colons(colons) + more, c)
            == if colons == 0 then NoArgument else if colons == 1 then Required else Optional
  {
    var s := [c] + Colons(colons) + more;
    assert IndexOf(s, c) == 0;
    assert s[1 + colons..] == more;
    assert At(s, 1 + colons) == At(more, 0);
  }

  lemma NoKind(t: CString, c: char)
    ensures KindOf("", c) == Unknown && KindOf(t, ':') == Unknown
  {
  }

  /** The parser's kind of a letter is its first declaration; other letters, and the colon, are unknown. */
  lemma {:induction false} DeclaredKind(ds: seq<Declaration>, c: char)
    requires AreLetters(ds)
    ensures NUL !in DeclarationText(ds) && At(DeclarationText(ds), 0) != ':'
    ensures KindOf(DeclarationText(ds), c) == Declared(ds, c)
  {
    hide KindOf;
    NoKind("", c);
    if ds != [] {
      var d, more := ds[0], DeclarationText(ds[1..]);
      DeclaredKind(ds[1..], c);
      FirstKind(d.c, d.colons, more);
      if c == ':' {
        NoKind([d.c] + Colons(d.colons) + more, c);
        NoKind(more, c);
      } else if c != d.c {
        KindBehind([d.c] + Colons(d.colons), more, c);
      }
    }
  }

  lemma LettersOf(spec: Spec)
    requires WellFormed(spec)
    ensures NUL !in OptString(spec)
    ensures Letters(OptString(spec)) == Colons(spec.lead) + DeclarationText(spec.decls)
    ensures InOrder(OptString(spec)) <==> spec.mode.Dash?
    ensures Silent(OptString(spec)) <==> spec.lead > 0
  {
    DeclaredKind(spec.decls, 'a');
    var letters := Colons(spec.lead) + DeclarationText(spec.decls);
    assert spec.lead > 0 ==> letters[0] == ':';
    assert spec.lead == 0 ==> letters == DeclarationText(spec.decls);
    assert "" + letters == letters;
    assert ("+" + letters)[1..] == letters && ("-" + letters)[1..] == letters;
  }

  /** An option string says to the parser what it declares. */
  lemma OptStringDescribes(spec: Spec)
    requires WellFormed(spec)
    ensures NUL !in OptString(spec) && Describes(spec, OptString(spec))
  {
    hide KindOf, OptString, Letters, DeclarationText, InOrder, Silent;
    LettersOf(spec);
    forall c
      ensures KindOf(Letters(OptString(spec)), c) == Declared(spec.decls, c)
    {
      DeclaredKind(spec.decls, c);
      if c == ':' {
        NoKind(DeclarationText(spec.decls), c);
        NoKind(Letters(OptString(spec)), c);
      } else {
        KindBehind(Colons(spec.lead), DeclarationText(spec.decls), c);
      }
    }
  }

  lemma {:induction false} LettersAreDeclarations(t: CString) returns (lead: nat, ds: seq<Declaration>)
    ensures AreLetters(ds) && t == Colons(lead) + DeclarationText(ds)
  {
    if t == "" {
      lead, ds := 0, [];
    } else {
      assert t[0] in t;
      lead, ds := LettersAreDeclarations(t[1..]);
      assert t == [t[0]] + Colons(lead) + DeclarationText(ds);
      if t[0] == ':' {
        lead := lead + 1;
        assert [':'] + Colons(lead - 1) == Colons(lead);
      } else {
        var d := Declaration(t[0], lead);
        assert ([d] + ds)[1..] == ds;
        lead, ds := 0, [d] + ds;
        assert Colons(0) + DeclarationText(ds) == DeclarationText(ds);
      }
    }
  }

  /** Every option string is the text of a specification. */
  lemma EveryOptString(s: CString) returns (spec: Spec)
    ensures WellFormed(spec) && OptString(spec) == s
  {
    hide DeclarationText;
    var c := At(s, 0);
    var mode := if c == '-' then Dash else if c == '+' then Plus else Plain;
    var letters := if mode.Plain? then s else s[1..];
    var lead, ds := LettersAreDeclarations(letters);
    spec := Spec(mode, lead, ds);
    if ds != [] && lead == 0 {
      FirstLetter(ds);
    }
    assert s == (match mode case Plain => "" case Plus => "+" case Dash => "-") + letters;
  }

  lemma FirstLetter(ds: seq<Declaration>)
    requires ds != []
    ensures var letters := Colons(0) + DeclarationText(ds);
            letters != "" && letters[0] == ds[0].c
  {
  }
}
