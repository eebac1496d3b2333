/**
 * The two filter sub-clauses of the search page: category codes and
 * procedure statuses. Both read a comma-separated parameter, trim every
 * piece and silently drop the pieces that are empty after trimming.
 */
module Filters {
  import opened Text
  import opened Soql

  const CodePrefix := "V1."
  const CodeField := "codigo_principal_de_categoria"
  const StatusField := "UPPER(estado_del_procedimiento)"

  /** The trimmed form of every piece that is not blank, in input order. */
  function Kept(pieces: seq<string>): (r: seq<string>)
    ensures |r| <= |pieces|
    ensures forall i :: 0 <= i < |r| ==> r[i] != []
  {
    if pieces == [] then [] else KeptOne(pieces[0]) + Kept(pieces[1..])
  }

  /** What one piece contributes: its trimmed form, unless that is empty. */
  function KeptOne(p: string): (r: seq<string>)
    ensures |r| <= 1 && (r == [] <==> Blank(p))
  {
    var t := Strip(p);
    if t == [] then [] else [t]
  }

  /** Keeping distributes over concatenation, so kept tokens stay in input order. */
  lemma {:induction false} KeptAppend(a: seq<string>, b: seq<string>)
    ensures Kept(a + b) == Kept(a) + Kept(b)
  {
    if a == [] {
      assert a + b == b;
    } else {
      calc {
        Kept(a + b);
        == { assert (a + b)[0] == a[0]; assert (a + b)[1..] == a[1..] + b; }
        KeptOne(a[0]) + Kept(a[1..] + b);
        == { KeptAppend(a[1..], b); }
        KeptOne(a[0]) + (Kept(a[1..]) + Kept(b));
        == { ConcatAssoc(KeptOne(a[0]), Kept(a[1..]), Kept(b)); }
        Kept(a) + Kept(b);
      }
    }
  }

  /** A token is kept exactly when it is the non-empty trimmed form of some piece. */
  lemma {:induction false} KeptMembers(pieces: seq<string>, t: string)
    ensures t in Kept(pieces) <==> exists p :: p in pieces && Strip(p) != [] && t == Strip(p)
  {
    if pieces != [] {
      KeptMembers(pieces[1..], t);
      assert forall p :: p in pieces <==> p == pieces[0] || p in pieces[1..] by {
        assert pieces == [pieces[0]] + pieces[1..];
      }
    }
  }

  /** A piece that is empty or only whitespace contributes nothing. */
  lemma KeptBlank(a: seq<string>, p: string, b: seq<string>)
    requires Blank(p)
    ensures Kept(a + [p] + b) == Kept(a + b)
  {
    assert Kept([p]) == KeptOne(p) + Kept([]);
    calc {
      Kept(a + [p] + b);
      == { KeptAppend(a + [p], b); }
      Kept(a + [p]) + Kept(b);
      == { KeptAppend(a, [p]); assert Kept(a) + [] == Kept(a); }
      Kept(a) + Kept(b);
      == { KeptAppend(a, b); }
      Kept(a + b);
    }
  }

  /** Extending the pieces by one adds that piece's contribution at the end. */
  lemma KeptSnoc(pieces: seq<string>, i: nat)
    requires i < |pieces|
    ensures Kept(pieces[..i + 1]) == Kept(pieces[..i]) + KeptOne(pieces[i])
  {
    assert pieces[..i + 1] == pieces[..i] + [pieces[i]];
    KeptAppend(pieces[..i], [pieces[i]]);
    assert Kept([pieces[i]]) == KeptOne(pieces[i]) + Kept([]);
    assert KeptOne(pieces[i]) + [] == KeptOne(pieces[i]);
  }

  // ---------------------------------------------------------------------------
  // Category codes

  /** A category token with the `V1.` prefix added unless already present. */
  function Normalize(t: string): (r: string)
    ensures StartsWith(r, CodePrefix)
    ensures r == t || r == CodePrefix + t
    ensures StartsWith(t, CodePrefix) ==> r == t
  {
    if StartsWith(t, CodePrefix) then t else CodePrefix + t
  }

  lemma NormalizeIdempotent(t: string)
    ensures Normalize(Normalize(t)) == Normalize(t)
  {
  }

  /** The category codes of the parameter, normalized but not yet escaped. */
  function CodeTokens(codigos: string): (r: seq<string>)
    ensures |r| == |Kept(Split(codigos, ','))|
    ensures forall i :: 0 <= i < |r| ==> StartsWith(r[i], CodePrefix)
    ensures forall i :: 0 <= i < |r| ==>
      var k := Kept(Split(codigos, ','))[i];
      (StartsWith(k, CodePrefix) ==> r[i] == k) && (!StartsWith(k, CodePrefix) ==> r[i] == CodePrefix + k)
  {
    MapSeq(Normalize, Kept(Split(codigos, ',')))
  }

  /** The escaped codes of the first `i` pieces. */
  function CodesUpTo(pieces: seq<string>, i: nat): seq<string>
    requires i <= |pieces|
  {
    MapSeq(Escape, MapSeq(Normalize, Kept(pieces[..i])))
  }

  lemma CodesStep(pieces: seq<string>, i: nat)
    requires i < |pieces|
    ensures Blank(pieces[i]) ==> CodesUpTo(pieces, i + 1) == CodesUpTo(pieces, i)
    ensures !Blank(pieces[i]) ==>
      CodesUpTo(pieces, i + 1) == CodesUpTo(pieces, i) + [Escape(Normalize(Strip(pieces[i])))]
  {
    KeptSnoc(pieces, i);
    var k := Kept(pieces[..i]);
    if Blank(pieces[i]) {
      assert k + [] == k;
    } else {
      var t := Strip(pieces[i]);
      MapSeqAppend(Normalize, k, [t]);
      assert MapSeq(Normalize, [t]) == [Normalize(t)];
      MapSeqAppend(Escape, MapSeq(Normalize, k), [Normalize(t)]);
      assert MapSeq(Escape, [Normalize(t)]) == [Escape(Normalize(t))];
    }
  }

  /** The loop over the comma-separated codes: trim, skip empties, add the
      `V1.` prefix when missing and collect the escaped token. */
  method CollectCodes(codigos: string) returns (lista: seq<string>)
    ensures lista == MapSeq(Escape, CodeTokens(codigos))
  {
    var pieces := Split(codigos, ',');
    lista := [];
    for i := 0 to |pieces|
      invariant lista == CodesUpTo(pieces, i)
    {
      CodesStep(pieces, i);
      var c := Strip(pieces[i]);
      if c == [] {
        continue;
      }
      if !StartsWith(c, CodePrefix) {
        c := CodePrefix + c;
      }
      lista := lista + [Escape(c)];
    }
    assert pieces[..|pieces|] == pieces;
  }

  /** The category block of the handler: when the parameter is present and
      not empty, runs the code loop and appends the `IN` clause if some code
      was collected. */
  method AddCodeClause(condiciones: seq<string>, codigos: Option<string>) returns (r: seq<string>)
    ensures r == condiciones + CodeCondition(codigos)
  {
    r := condiciones;
    if codigos.Some? && codigos.value != "" {
      var lista := CollectCodes(codigos.value);
      if lista != [] {
        r := r + [InClause(CodeField, lista)];
      }
    }
  }

  /** The status block of the handler: keeps the trimmed non-empty statuses
      and, if there are any, appends the `IN` clause of their escaped
      upper-cased forms. */
  method AddStatusClause(condiciones: seq<string>, estado: Option<string>) returns (r: seq<string>)
    ensures r == condiciones + StatusCondition(estado)
  {
    r := condiciones;
    if estado.Some? && estado.value != "" {
      var estados := Kept(Split(estado.value, ','));
      if estados != [] {
        var upper := MapSeq(Escape, MapSeq(Upper, estados));
        r := r + [InClause(StatusField, upper)];
      }
    }
  }

  /** The category clause: present exactly when a code survives. */
  function CodeCondition(codigos: Option<string>): (r: seq<string>)
    ensures |r| <= 1
  {
    if codigos.None? || codigos.value == "" then []
    else
      var tokens := CodeTokens(codigos.value);
      if tokens == [] then [] else [InClause(CodeField, MapSeq(Escape, tokens))]
  }

  // ---------------------------------------------------------------------------
  // Statuses

  /** The statuses of the parameter, upper-cased but not yet escaped. */
  function StatusTokens(estado: string): (r: seq<string>)
    ensures |r| == |Kept(Split(estado, ','))|
    ensures forall i :: 0 <= i < |r| ==>
      var k := Kept(Split(estado, ','))[i];
      |r[i]| == |k| && forall j :: 0 <= j < |k| ==> r[i][j] == UpperChar(k[j])
  {
    MapSeq(Upper, Kept(Split(estado, ',')))
  }

  /** The status clause: present exactly when a status survives. */
  function StatusCondition(estado: Option<string>): (r: seq<string>)
    ensures |r| <= 1
  {
    if estado.None? || estado.value == "" then []
    else
      var tokens := StatusTokens(estado.value);
      if tokens == [] then [] else [InClause(StatusField, MapSeq(Escape, tokens))]
  }

  // ---------------------------------------------------------------------------
  // The values a parameter contributes (empty when the parameter is absent)

  function CodeList(codigos: Option<string>): seq<string>
  {
    if codigos.None? || codigos.value == "" then [] else CodeTokens(codigos.value)
  }

  function StatusList(estado: Option<string>): seq<string>
  {
    if estado.None? || estado.value == "" then [] else StatusTokens(estado.value)
  }

  lemma CodeConditionPresent(codigos: Option<string>)
    ensures CodeCondition(codigos) == [] <==> CodeList(codigos) == []
  {
  }

  lemma StatusConditionPresent(estado: Option<string>)
    ensures StatusCondition(estado) == [] <==> StatusList(estado) == []
  {
  }

  /** The category clause exists exactly when some code survives, and then
      reads back as exactly those codes, whatever text follows it. */
  lemma CodeConditionSpec(codigos: Option<string>, tail: string)
    ensures CodeCondition(codigos) == [] <==> CodeList(codigos) == []
    ensures CodeCondition(codigos) != [] ==>
      ReadInClause(CodeField, CodeCondition(codigos)[0] + tail) == Some((CodeList(codigos), tail))
  {
    if CodeCondition(codigos) != [] {
      ClauseRoundTrip(CodeField, CodeList(codigos), tail);
    }
  }

  /** The status clause exists exactly when some status survives, and then
      reads back as exactly those upper-cased statuses. */
  lemma StatusConditionSpec(estado: Option<string>, tail: string)
    ensures StatusCondition(estado) == [] <==> StatusList(estado) == []
    ensures StatusCondition(estado) != [] ==>
      ReadInClause(StatusField, StatusCondition(estado)[0] + tail) == Some((StatusList(estado), tail))
  {
    if StatusCondition(estado) != [] {
      ClauseRoundTrip(StatusField, StatusList(estado), tail);
    }
  }

  // ---------------------------------------------------------------------------
  // Worked examples

  lemma SplitExample()
    ensures Split("a,,b", ',') == ["a", "", "b"]
  {
    assert Split("", ',') == [""];
    assert "b"[1..] == "";
    assert [""][1..] == [];
    assert ['b'] + "" == "b";
    assert Split("b", ',') == [['b'] + ""] + [""][1..];
    assert ",b"[1..] == "b";
    assert Split(",b", ',') == ["", "b"];
    assert ",,b"[1..] == ",b";
    assert Split(",,b", ',') == ["", "", "b"];
    assert "a,,b"[1..] == ",,b";
    assert ["", "", "b"][1..] == ["", "b"];
    assert ['a'] + "" == "a";
    assert Split("a,,b", ',') == [['a'] + ""] + ["", "", "b"][1..];
  }

  lemma KeptExample()
    ensures Kept(["a", "", "b"]) == ["a", "b"]
  {
    assert Strip("a") == "a";
    assert Strip("") == "";
    assert Strip("b") == "b";
    var pieces := ["a", "", "b"];
    assert pieces[1..] == ["", "b"] && pieces[1..][1..] == ["b"] && ["b"][1..] == [];
    assert Kept(["b"]) == ["b"];
    assert Kept(["", "b"]) == ["b"];
  }

  /** An empty slot between commas is dropped; both codes get the prefix. */
  lemma EmptySlotDropped(codigos: string)
    requires codigos == "a,,b"
    ensures CodeTokens(codigos) == ["V1.a", "V1.b"]
  {
    KeptSplitExample(codigos);
    NormalizeExample(["a", "b"]);
  }

  lemma KeptSplitExample(codigos: string)
    requires codigos == "a,,b"
    ensures Kept(Split(codigos, ',')) == ["a", "b"]
  {
    SplitExample();
    KeptExample();
  }

  lemma NormalizeExample(ks: seq<string>)
    requires ks == ["a", "b"]
    ensures MapSeq(Normalize, ks) == ["V1.a", "V1.b"]
  {
    assert MapSeq(Normalize, ks) == [Normalize(ks[0]), Normalize(ks[1])];
    assert Normalize(ks[0]) == "V1.a";
    assert Normalize(ks[1]) == "V1.b";
  }

  /** A parameter without commas or surrounding blanks is a single token. */
  lemma SingleToken(s: string)
    requires ',' !in s && s != [] && !IsSpace(s[0]) && !IsSpace(s[|s| - 1])
    ensures Kept(Split(s, ',')) == [s]
  {
    SplitNoSep(s, ',');
    StripTrimmed(s);
    assert [s][1..] == [];
    assert Kept([s]) == KeptOne(s) + Kept([]);
  }

  lemma SingleCode(s: string)
    requires ',' !in s && s != [] && !IsSpace(s[0]) && !IsSpace(s[|s| - 1])
    ensures CodeTokens(s) == [Normalize(s)]
  {
    SingleToken(s);
    assert MapSeq(Normalize, [s]) == [Normalize(s)];
  }

  /** A bare code gets the prefix. */
  lemma BareCodeExample(s: string)
    requires s == "47131504"
    ensures CodeTokens(s) == ["V1.47131504"]
  {
    assert ',' !in s by {
      forall i | 0 <= i < |s| ensures s[i] != ',' {
      }
    }
    SingleCode(s);
    PrefixAdded(s);
  }

  lemma PrefixAdded(s: string)
    requires s == "47131504"
    ensures Normalize(s) == "V1.47131504"
  {
    assert !StartsWith(s, CodePrefix) by {
      assert s[..3][0] == '4';
    }
    assert CodePrefix + s == "V1.47131504";
  }

  /** A code that already has the prefix is kept as is. */
  lemma PrefixedCodeExample(s: string)
    requires s == "V1.47131504"
    ensures CodeTokens(s) == ["V1.47131504"]
  {
    assert ',' !in s by {
      forall i | 0 <= i < |s| ensures s[i] != ',' {
      }
    }
    SingleCode(s);
    assert StartsWith(s, CodePrefix);
  }

  /** Pieces that are all blank keep nothing. */
  lemma {:induction false} KeptNone(pieces: seq<string>)
    requires forall i :: 0 <= i < |pieces| ==> Blank(pieces[i])
    ensures Kept(pieces) == []
  {
    if pieces != [] {
      KeptNone(pieces[1..]);
    }
  }

  /** A parameter whose comma-separated pieces are all empty or blank yields
      neither a category clause nor a status clause. */
  lemma BlankPieces(s: string)
    requires forall i :: 0 <= i < |Split(s, ',')| ==> Blank(Split(s, ',')[i])
    ensures CodeCondition(Some(s)) == [] && CodeList(Some(s)) == []
    ensures StatusCondition(Some(s)) == [] && StatusList(Some(s)) == []
  {
    KeptNone(Split(s, ','));
  }

  /** In particular an empty or all-blank parameter yields no clause. */
  lemma BlankParameter(s: string)
    requires Blank(s)
    ensures CodeCondition(Some(s)) == [] && StatusCondition(Some(s)) == []
  {
    assert ',' !in s by {
      forall i | 0 <= i < |s| ensures s[i] != ',' {
        assert IsSpace(s[i]);
      }
    }
    SplitNoSep(s, ',');
    BlankPieces(s);
  }

  lemma StatusConditionOf(estado: string)
    requires estado != "" && StatusTokens(estado) != []
    ensures StatusCondition(Some(estado)) == [InClause(StatusField, MapSeq(Escape, StatusTokens(estado)))]
  {
  }

  lemma UpperExample(s: string)
    requires s == "Adjudicado"
    ensures Upper(s) == "ADJUDICADO"
  {
    var up := Upper(s);
    forall i | 0 <= i < |s| ensures up[i] == "ADJUDICADO"[i] {
    }
  }

  lemma StatusTokensExample(s: string)
    requires s == "Adjudicado"
    ensures StatusTokens(s) == ["ADJUDICADO"]
  {
    assert ',' !in s by {
      forall i | 0 <= i < |s| ensures s[i] != ',' {
      }
    }
    SingleToken(s);
    UpperExample(s);
    assert MapSeq(Upper, [s]) == [Upper(s)];
  }

  lemma RenderExample(a: string)
    requires a == "ADJUDICADO"
    ensures InClause(StatusField, [a]) == "UPPER(estado_del_procedimiento) IN ('ADJUDICADO')"
  {
    InListCons([a]);
  }

  lemma EscapeExample(a: string)
    requires a == "ADJUDICADO"
    ensures MapSeq(Escape, [a]) == [a]
  {
    assert '\'' !in a by {
      forall i | 0 <= i < |a| ensures a[i] != '\'' {
      }
    }
    EscapeIdentity(a);
    assert MapSeq(Escape, [a]) == [Escape(a)];
  }

  /** A status is compared upper-cased. */
  lemma StatusExample(estado: string)
    requires estado == "Adjudicado"
    ensures StatusCondition(Some(estado))
         == ["UPPER(estado_del_procedimiento) IN ('ADJUDICADO')"]
  {
    var a := "ADJUDICADO";
    StatusTokensExample(estado);
    EscapeExample(a);
    RenderExample(a);
    StatusConditionOf(estado);
  }
}
