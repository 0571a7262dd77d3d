/** Placeholder substitution in the wrapped command's arguments.

    An argument is cut at every `@@`; the first piece is kept literally and
    each later piece is a placeholder `names@:default@:suffix`. `names` is a
    `,`-separated list of fallback variable names, and each of those may be
    assembled from other variables' values with `:` (segments at odd
    positions are looked up, one level only). */
module Placeholder {
  import opened Wrappers
  import opened Text
  import opened Env

  datatype PlaceholderError =
    | EmptyName(piece: string)                  // "please specify an ENV var name after '@@'"
    | Unresolved(piece: string, names: string)  // "there is no env variable named ..."

  /** The fields of one placeholder piece. */
  datatype Spec = Spec(names: string, fallback: Option<string>, suffix: Option<string>)

  const Marker := "@@"
  const FieldSep := "@:"

  /** Splits a piece on `@:`: three or more fields give name, default and
      suffix (further fields are dropped); two give name and suffix; one
      gives the name alone. An empty name is an error quoting the piece. */
  function ParsePiece(piece: string): (r: Result<Spec, PlaceholderError>)
    ensures r.Failure? <==> piece == "" || StartsWith(piece, FieldSep)
    ensures r.Failure? ==> r.error == EmptyName(piece)
    ensures r.Success? ==> && r.value.names != ""
                           && StartsWith(piece, r.value.names)
                           && !Contains(r.value.names, FieldSep)
    ensures r.Success? && r.value.fallback.Some? ==> r.value.suffix.Some?
  {
    var fields := Split(piece, FieldSep);
    SplitHeadFree(piece, FieldSep);
    if fields[0] == "" then Failure(EmptyName(piece))
    else
      var hasSuffix := |fields| >= 3;
      var suffix := if hasSuffix then Some(fields[2]) else if |fields| == 2 then Some(fields[1]) else None;
      var fallback := if hasSuffix then Some(fields[1]) else None;
      Success(Spec(fields[0], fallback, suffix))
  }

  /** Joins the segments of a `:`-split name, reading those at odd
      positions as variable names; a missing variable contributes "". */
  function Assemble(segments: seq<string>, env: Environment, odd: bool): (r: string)
    ensures |segments| > 0 ==> StartsWith(r, if odd then Get(env, segments[0]) else segments[0])
    ensures |segments| == 1 ==> r == if odd then Get(env, segments[0]) else segments[0]
  {
    if |segments| == 0 then ""
    else (if odd then Get(env, segments[0]) else segments[0]) + Assemble(segments[1..], env, !odd)
  }

  /** The variable name a fallback candidate stands for. */
  function ComposeName(name: string, env: Environment): (r: string)
    ensures ':' !in name ==> r == name
  {
    SplitWithoutChar(name, ':');
    Assemble(Split(name, ":"), env, false)
  }

  function ComposeAll(parts: seq<string>, env: Environment): seq<string>
  {
    if |parts| == 0 then [] else [ComposeName(parts[0], env)] + ComposeAll(parts[1..], env)
  }

  /** The composed names of the `,`-separated candidates, in order. */
  function Candidates(names: string, env: Environment): (r: seq<string>)
    ensures ',' !in names ==> r == [ComposeName(names, env)]
  {
    SplitWithoutChar(names, ',');
    assert [names][1..] == [];
    assert ComposeAll([names], env) == [ComposeName(names, env)] + ComposeAll([], env);
    ComposeAll(Split(names, ","), env)
  }

  /** The value of one placeholder followed by its suffix: the first
      candidate with a non-empty value, else a non-empty default; anything
      else (an empty default included) is an error. */
  function ResolvePiece(piece: string, env: Environment): (r: Result<string, PlaceholderError>)
    ensures ParsePiece(piece).Failure? ==> r == Failure(ParsePiece(piece).error)
    ensures ParsePiece(piece).Success? ==>
              var spec := ParsePiece(piece).value;
              var found := FirstSet(Candidates(spec.names, env), env);
              && (r.Success? <==> found.Some? || Truthy(spec.fallback))
              && (r.Failure? ==> r.error == Unresolved(piece, spec.names))
              && (r.Success? ==> r.value == (if found.Some? then found.value else spec.fallback.value)
                                            + Or(spec.suffix, ""))
  {
    var spec :- ParsePiece(piece);
    var value := ScanNames(Candidates(spec.names, env), env, None);
    var value := if Truthy(value) then value else spec.fallback;
    if !Truthy(value) then Failure(Unresolved(piece, spec.names))
    else Success(value.value + Or(spec.suffix, ""))
  }

  function Resolver(env: Environment): string -> Result<string, PlaceholderError>
  {
    (p: string) => ResolvePiece(p, env)
  }

  /** One argument: unchanged when it holds no `@@`; otherwise its prefix
      followed by every placeholder's value and suffix, in order. The first
      placeholder that fails decides the error. */
  function SubstituteArg(arg: string, env: Environment): (r: Result<string, PlaceholderError>)
    ensures !Contains(arg, Marker) ==> r == Success(arg)
    ensures var pieces := Split(arg, Marker);
            var resolved := MapAll(pieces[1..], Resolver(env));
            Contains(arg, Marker) ==>
              && (r.Success? <==> resolved.Success?)
              && (r.Success? ==> r.value == pieces[0] + Join(resolved.value, ""))
              && (r.Failure? ==> r.error == resolved.error)
  {
    var pieces := Split(arg, Marker);
    SplitSingle(arg, Marker);
    if |pieces| == 1 then Success(arg)
    else
      var values :- MapAll(pieces[1..], Resolver(env));
      Success(pieces[0] + Join(values, ""))
  }

  /** Every argument in turn; the first failing argument stops the rest. */
  function SubstituteAll(args: seq<string>, env: Environment): (r: Result<seq<string>, PlaceholderError>)
    ensures r.Success? ==> |r.value| == |args| && forall i :: 0 <= i < |args| ==> SubstituteArg(args[i], env) == Success(r.value[i])
    ensures r.Success? <==> forall i :: 0 <= i < |args| ==> SubstituteArg(args[i], env).Success?
    ensures r.Failure? ==> exists i :: && 0 <= i < |args|
                                      && SubstituteArg(args[i], env) == Failure(r.error)
                                      && forall j :: 0 <= j < i ==> SubstituteArg(args[j], env).Success?
    ensures (forall i :: 0 <= i < |args| ==> !Contains(args[i], Marker)) ==> r == Success(args)
  {
    var r := MapAll(args, (a: string) => SubstituteArg(a, env));
    assert (forall i :: 0 <= i < |args| ==> !Contains(args[i], Marker)) ==> r.Success? && r.value == args by {
      if forall i :: 0 <= i < |args| ==> !Contains(args[i], Marker) {
        assert forall i :: 0 <= i < |args| ==> SubstituteArg(args[i], env) == Success(args[i]);
        assert r.Success?;
        assert forall i :: 0 <= i < |args| ==> r.value[i] == args[i];
      }
    }
    r
  }

  // ---------------------------------------------------------------------
  // How a piece is split on `@:`

  /** Three or more fields: the second is the default, the third the
      suffix, and any further fields are ignored. */
  lemma {:induction false} ThreeFields(name: string, d: string, s: string, rest: string)
    requires name != "" && FreeField(name, FieldSep) && FreeField(d, FieldSep) && FreeField(s, FieldSep)
    requires rest == "" || StartsWith(rest, FieldSep)
    ensures ParsePiece(name + FieldSep + d + FieldSep + s + rest) == Success(Spec(name, Some(d), Some(s)))
  {
    var piece := name + FieldSep + d + FieldSep + s + rest;
    assert piece == name + FieldSep + (d + FieldSep + (s + rest));
    SplitAfterField(name, FieldSep, d + FieldSep + (s + rest));
    SplitAfterField(d, FieldSep, s + rest);
    if rest == "" {
      assert s + rest == s;
      FreeFieldContainsNone(s, FieldSep);
      SplitSingle(s, FieldSep);
    } else {
      assert s + rest == s + FieldSep + rest[2..];
      SplitAfterField(s, FieldSep, rest[2..]);
    }
  }

  /** Exactly two fields: the second is the suffix and there is no default. */
  lemma {:induction false} TwoFields(name: string, s: string)
    requires name != "" && FreeField(name, FieldSep) && !Contains(s, FieldSep)
    ensures ParsePiece(name + FieldSep + s) == Success(Spec(name, None, Some(s)))
  {
    SplitAfterField(name, FieldSep, s);
    SplitSingle(s, FieldSep);
  }

  /** One field: neither default nor suffix. */
  lemma {:induction false} OneField(name: string)
    requires name != "" && !Contains(name, FieldSep)
    ensures ParsePiece(name) == Success(Spec(name, None, None))
  {
    SplitSingle(name, FieldSep);
  }

  // ---------------------------------------------------------------------
  // How a candidate name is composed

  /** `a,rest` tries `a` first, then the candidates of `rest`. */
  lemma {:induction false} CandidatesCons(a: string, rest: string, env: Environment)
    requires ',' !in a
    ensures Candidates(a + "," + rest, env) == [ComposeName(a, env)] + Candidates(rest, env)
  {
    FreeOfChar(a, ',');
    SplitAfterField(a, ",", rest);
    var tail := Split(rest, ",");
    assert Split(a + "," + rest, ",") == [a] + tail;
    assert ([a] + tail)[1..] == tail;
  }

  /** `a:b:rest` is `a`, then the value of `b` inserted as it stands (not
      expanded again, even if it holds `:`), then `rest` composed anew. */
  lemma {:induction false} ComposeStep(a: string, b: string, rest: string, env: Environment)
    requires ':' !in a && ':' !in b
    ensures ComposeName(a + ":" + b + ":" + rest, env) == a + Get(env, b) + ComposeName(rest, env)
  {
    var tail := Split(rest, ":");
    TwoFieldsCut(a, b, rest);
    AssemblePair(a, b, tail, env);
  }

  /** Two colon-free fields are cut off before `rest` is split. */
  lemma {:induction false} TwoFieldsCut(a: string, b: string, rest: string)
    requires ':' !in a && ':' !in b
    ensures Split(a + ":" + b + ":" + rest, ":") == [a, b] + Split(rest, ":")
  {
    var tail := b + ":" + rest;
    assert a + ":" + b + ":" + rest == a + ":" + tail;
    assert Split(a + ":" + tail, ":") == [a] + Split(tail, ":") by {
      FreeOfChar(a, ':');
      SplitAfterField(a, ":", tail);
    }
    assert Split(tail, ":") == [b] + Split(rest, ":") by {
      FreeOfChar(b, ':');
      SplitAfterField(b, ":", rest);
    }
  }

  /** A literal segment and a looked-up one, then the rest from a literal. */
  lemma {:induction false} AssemblePair(a: string, b: string, tail: seq<string>, env: Environment)
    ensures Assemble([a, b] + tail, env, false) == a + Get(env, b) + Assemble(tail, env, false)
  {
    var all := [a, b] + tail;
    assert all[1..] == [b] + tail;
    assert ([b] + tail)[1..] == tail;
    calc {
      Assemble(all, env, false);
      a + Assemble([b] + tail, env, true);
      a + (Get(env, b) + Assemble(tail, env, false));
    }
  }

  /** `a:b` with the trailing segment looked up. */
  lemma {:induction false} ComposeLast(a: string, b: string, env: Environment)
    requires ':' !in a && ':' !in b
    ensures ComposeName(a + ":" + b, env) == a + Get(env, b)
  {
    FreeOfChar(a, ':');
    FreeOfChar(b, ':');
    SplitAfterField(a, ":", b);
    FreeFieldContainsNone(b, ":");
    SplitSingle(b, ":");
    assert Split(a + ":" + b, ":") == [a, b];
    assert [a, b][1..] == [b];
    assert [b][1..] == [];
    calc {
      Assemble([a, b], env, false);
      a + Assemble([b], env, true);
      a + (Get(env, b) + Assemble([], env, false));
    }
  }

  // ---------------------------------------------------------------------
  // Resolution

  /** An explicitly empty default (`@@X@:@:`) does not rescue a placeholder
      whose candidates are all unset or empty, although the error text
      offers that form. */
  lemma {:induction false} EmptyDefaultFails(name: string, s: string, env: Environment)
    requires name != "" && FreeField(name, FieldSep) && FreeField(s, FieldSep)
    requires FirstSet(Candidates(name, env), env).None?
    ensures ResolvePiece(name + FieldSep + "" + FieldSep + s, env)
         == Failure(Unresolved(name + FieldSep + "" + FieldSep + s, name))
  {
    assert FreeField("", FieldSep);
    ThreeFields(name, "", s, "");
    assert name + FieldSep + "" + FieldSep + s + "" == name + FieldSep + "" + FieldSep + s;
  }

  /** With a non-empty default, a placeholder always resolves: to the first
      set candidate, else to the default, followed by the suffix. */
  lemma {:induction false} DefaultApplies(name: string, d: string, s: string, env: Environment)
    requires name != "" && d != "" && FreeField(name, FieldSep) && FreeField(d, FieldSep) && FreeField(s, FieldSep)
    ensures ResolvePiece(name + FieldSep + d + FieldSep + s, env)
         == Success(Or(FirstSet(Candidates(name, env), env), d) + s)
  {
    ThreeFields(name, d, s, "");
    assert name + FieldSep + d + FieldSep + s + "" == name + FieldSep + d + FieldSep + s;
  }

  /** An argument that is a single placeholder evaluates to that
      placeholder's outcome. */
  lemma {:induction false} SinglePlaceholder(piece: string, env: Environment)
    requires !Contains(piece, Marker)
    ensures SubstituteArg(Marker + piece, env) == ResolvePiece(piece, env)
  {
    assert FreeField("", Marker);
    SplitAfterField("", Marker, piece);
    assert "" + Marker + piece == Marker + piece;
    SplitSingle(piece, Marker);
    var pieces := Split(Marker + piece, Marker);
    assert pieces == ["", piece];
    assert |pieces| != 1;
    SplitSingle(Marker + piece, Marker);
    assert pieces[1..] == [piece];
    assert MatchAt(Marker + piece, Marker, 0);
    MapAllOne(piece, Resolver(env));
    match ResolvePiece(piece, env)
    case Success(v) =>
      assert Join([v], "") == v;
      assert "" + v == v;
    case Failure(e) =>
  }

  /** The closing-marker form `@@NAME@@` is rejected whatever the
      environment: the empty piece after the second `@@` has no name. */
  lemma {:induction false} ClosingMarkerRejected(name: string, env: Environment)
    requires FreeField(name, Marker)
    ensures SubstituteArg(Marker + name + Marker, env).Failure?
  {
    var arg := Marker + name + Marker;
    EnclosedPieces(name, Marker);
    var rest := Split(arg, Marker)[1..];
    assert rest == [name, ""];
    assert MatchAt(arg, Marker, 0);
    assert Resolver(env)(rest[1]) == ResolvePiece("", env);
    MapAllFailsAt(rest, Resolver(env), 1);
  }
}
