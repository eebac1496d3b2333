/**
 * The search page's query assembly: the sort-order table, pagination, the
 * `$where` expression built from the filter clauses, the rule that no query
 * is issued without a filter, and what the page shows for each answer.
 */
module Query {
  import opened Text
  import opened Soql
  import opened Filters

  /** Rows per page. */
  const Limit: nat := 10

  const DefaultOrder := "recientes"

  /** Sort key to SoQL `$order` expression. */
  const OrderTable: map<string, string> := map[
    "recientes" := "fecha_de_publicacion_del DESC",
    "antiguos" := "fecha_de_publicacion_del ASC",
    "mayor_valor" := "precio_base DESC, valor_estimado DESC",
    "menor_valor" := "precio_base ASC, valor_estimado ASC"
  ]

  /** The table's entry for the key, or the `recientes` entry for any other
      key: total, never fails. */
  function OrderClause(orden: string): (r: string)
    ensures r in OrderTable.Values
    ensures orden in OrderTable ==> r == OrderTable[orden]
  {
    if orden in OrderTable then OrderTable[orden] else OrderTable[DefaultOrder]
  }

  /** A key outside the table sorts like `recientes`: newest first. */
  lemma UnknownOrderIsRecent(orden: string)
    requires orden !in {"recientes", "antiguos", "mayor_valor", "menor_valor"}
    ensures OrderClause(orden) == OrderClause(DefaultOrder) == "fecha_de_publicacion_del DESC"
  {
  }

  /** Index of the first row of a 1-based page. */
  function Offset(page: int): (r: nat)
    requires page >= 1
    ensures r % Limit == 0 && r / Limit == page - 1
  {
    (page - 1) * Limit
  }

  /** Consecutive pages are adjacent windows of `Limit` rows. */
  lemma PagesAdjacent(page: int)
    requires page >= 1
    ensures Offset(page + 1) == Offset(page) + Limit
  {
  }

  /** The query parameters sent to the dataset endpoint. */
  datatype Params = Params(where: string, limit: nat, offset: nat, order: string)

  /** The endpoint's answer: an HTTP status and the decoded body. */
  datatype Response<Row> = Response(status: int, rows: seq<Row>)

  /** The filter clauses in the order they are added: codes, then statuses. */
  function Conditions(codigos: Option<string>, estado: Option<string>): (r: seq<string>)
    ensures |r| == |CodeCondition(codigos)| + |StatusCondition(estado)| <= 2
    ensures CodeCondition(codigos) != [] ==> r[0] == CodeCondition(codigos)[0]
    ensures StatusCondition(estado) != [] ==> r[|r| - 1] == StatusCondition(estado)[0]
  {
    CodeCondition(codigos) + StatusCondition(estado)
  }

  /** The query the page issues, or `None` when no filter survives. */
  function Compile(codigos: Option<string>, estado: Option<string>, orden: string, page: int): (q: Option<Params>)
    requires page >= 1
    ensures q.None? <==> CodeList(codigos) == [] && StatusList(estado) == []
    ensures q.Some? ==> q.value.limit == Limit && q.value.offset == Offset(page)
    ensures q.Some? ==> q.value.order == OrderClause(orden)
  {
    CodeConditionPresent(codigos);
    StatusConditionPresent(estado);
    var conds := Conditions(codigos, estado);
    if conds == [] then None
    else Some(Params(Join(" AND ", conds), Limit, Offset(page), OrderClause(orden)))
  }

  /** The `home` handler without its template: compiles the filters, issues
      the query through `fetch` when some filter survives, and keeps the rows
      only on status 200. `sent` is the query that was passed to `fetch`. */
  method Home<Row>(codigos: Option<string>, estado: Option<string>, orden: string, page: int,
                   fetch: Params -> Response<Row>)
    returns (sent: Option<Params>, data: seq<Row>)
    requires page >= 1
    ensures sent == Compile(codigos, estado, orden, page)
    ensures sent.None? ==> data == []
    ensures sent.Some? ==> data == (if fetch(sent.value).status == 200 then fetch(sent.value).rows else [])
  {
    var limit := Limit;
    var offset := (page - 1) * limit;

    var condiciones: seq<string> := [];
    condiciones := AddCodeClause(condiciones, codigos);
    condiciones := AddStatusClause(condiciones, estado);
    ConditionsBuilt(condiciones, codigos, estado);
    CompileOf(codigos, estado, orden, page);

    sent, data := Issue(condiciones, limit, offset, OrderClause(orden), fetch);
  }

  /** The gate and the request: with some condition, sends their ` AND `
      join with the paging and the order, and keeps the rows only on status
      200; with none, sends nothing and shows nothing. */
  method Issue<Row>(condiciones: seq<string>, limit: nat, offset: nat, order: string,
                    fetch: Params -> Response<Row>)
    returns (sent: Option<Params>, data: seq<Row>)
    ensures sent == if condiciones == [] then None
                    else Some(Params(Join(" AND ", condiciones), limit, offset, order))
    ensures sent.None? ==> data == []
    ensures sent.Some? ==> data == (if fetch(sent.value).status == 200 then fetch(sent.value).rows else [])
  {
    data := [];
    sent := None;
    if condiciones != [] {
      var params := Params(Join(" AND ", condiciones), limit, offset, order);
      sent := Some(params);
      var resp := fetch(params);
      if resp.status == 200 {
        data := resp.rows;
      }
    }
  }

  lemma ConditionsBuilt(conds: seq<string>, codigos: Option<string>, estado: Option<string>)
    requires conds == [] + CodeCondition(codigos) + StatusCondition(estado)
    ensures conds == Conditions(codigos, estado)
  {
    assert [] + CodeCondition(codigos) == CodeCondition(codigos);
  }

  lemma CompileOf(codigos: Option<string>, estado: Option<string>, orden: string, page: int)
    requires page >= 1
    ensures var conds := Conditions(codigos, estado);
      Compile(codigos, estado, orden, page)
        == if conds == [] then None
           else Some(Params(Join(" AND ", conds), Limit, (page - 1) * Limit, OrderClause(orden)))
  {
  }

  // ---------------------------------------------------------------------------
  // Reading a compiled `$where` back

  /** Reads a `$where` made of an optional category clause followed by an
      optional status clause, joined by ` AND `. Gives the code and status
      values, or `None` when the text is not of that form. */
  function ReadWhere(w: string): Option<(seq<string>, seq<string>)>
  {
    match ReadInClause(CodeField, w)
    case Some((codes, rest)) =>
      if rest == "" then Some((codes, []))
      else if StartsWith(rest, " AND ") then
        match ReadInClause(StatusField, rest[5..])
        case Some((statuses, "")) => Some((codes, statuses))
        case _ => None
      else None
    case None =>
      match ReadInClause(StatusField, w)
      case Some((statuses, "")) => Some(([], statuses))
      case _ => None
  }

  /** A status clause is never mistaken for a category clause. */
  lemma StatusIsNotCode(estado: Option<string>)
    requires StatusCondition(estado) != []
    ensures ReadInClause(CodeField, StatusCondition(estado)[0]) == None
  {
    var c := StatusCondition(estado)[0];
    assert c[0] == 'U';
    assert (CodeField + " IN (")[0] == 'c';
  }

  lemma AndTail(b: string)
    ensures StartsWith(" AND " + b, " AND ") && (" AND " + b)[5..] == b
  {
    assert (" AND " + b)[..5] == " AND ";
  }

  lemma ReadWhereBoth(conds: seq<string>, codes: seq<string>, statuses: seq<string>)
    requires |conds| == 2
    requires ReadInClause(CodeField, conds[0] + (" AND " + conds[1])) == Some((codes, " AND " + conds[1]))
    requires ReadInClause(StatusField, conds[1] + "") == Some((statuses, ""))
    ensures ReadWhere(Join(" AND ", conds)) == Some((codes, statuses))
  {
    var cc, sc := conds[0], conds[1];
    assert conds[1..] == [sc];
    assert Join(" AND ", conds) == cc + (" AND " + sc);
    assert sc + "" == sc;
    AndTail(sc);
  }

  lemma ReadWhereCodes(conds: seq<string>, codes: seq<string>)
    requires |conds| == 1
    requires ReadInClause(CodeField, conds[0] + "") == Some((codes, ""))
    ensures ReadWhere(Join(" AND ", conds)) == Some((codes, []))
  {
    assert conds[0] + "" == conds[0];
  }

  lemma ReadWhereStatuses(conds: seq<string>, statuses: seq<string>)
    requires |conds| == 1
    requires ReadInClause(CodeField, conds[0]) == None
    requires ReadInClause(StatusField, conds[0] + "") == Some((statuses, ""))
    ensures ReadWhere(Join(" AND ", conds)) == Some(([], statuses))
  {
    assert conds[0] + "" == conds[0];
  }

  lemma WhereBothCase(codigos: Option<string>, estado: Option<string>)
    requires CodeCondition(codigos) != [] && StatusCondition(estado) != []
    ensures ReadWhere(Join(" AND ", CodeCondition(codigos) + StatusCondition(estado)))
         == Some((CodeList(codigos), StatusList(estado)))
  {
    var cc := CodeCondition(codigos);
    var sc := StatusCondition(estado);
    var conds := cc + sc;
    assert conds[0] == cc[0] && conds[1] == sc[0];
    CodeConditionSpec(codigos, " AND " + sc[0]);
    StatusConditionSpec(estado, "");
    ReadWhereBoth(conds, CodeList(codigos), StatusList(estado));
  }

  lemma WhereCodesCase(codigos: Option<string>, estado: Option<string>)
    requires CodeCondition(codigos) != [] && StatusCondition(estado) == []
    ensures ReadWhere(Join(" AND ", CodeCondition(codigos) + StatusCondition(estado)))
         == Some((CodeList(codigos), StatusList(estado)))
  {
    var cc := CodeCondition(codigos);
    assert cc + StatusCondition(estado) == cc;
    CodeConditionSpec(codigos, "");
    StatusConditionPresent(estado);
    ReadWhereCodes(cc, CodeList(codigos));
  }

  lemma WhereStatusesCase(codigos: Option<string>, estado: Option<string>)
    requires CodeCondition(codigos) == [] && StatusCondition(estado) != []
    ensures ReadWhere(Join(" AND ", CodeCondition(codigos) + StatusCondition(estado)))
         == Some((CodeList(codigos), StatusList(estado)))
  {
    var sc := StatusCondition(estado);
    assert CodeCondition(codigos) + sc == sc;
    CodeConditionPresent(codigos);
    StatusConditionSpec(estado, "");
    StatusIsNotCode(estado);
    ReadWhereStatuses(sc, StatusList(estado));
  }

  /** Injection safety end to end: the compiled `$where` reads back as
      exactly the surviving codes and statuses the user supplied, in order. */
  lemma WhereRoundTrip(codigos: Option<string>, estado: Option<string>, orden: string, page: int)
    requires page >= 1
    requires Compile(codigos, estado, orden, page).Some?
    ensures ReadWhere(Compile(codigos, estado, orden, page).value.where)
         == Some((CodeList(codigos), StatusList(estado)))
  {
    var cc := CodeCondition(codigos);
    var sc := StatusCondition(estado);
    assert Compile(codigos, estado, orden, page).value.where == Join(" AND ", cc + sc);
    if cc != [] && sc != [] {
      WhereBothCase(codigos, estado);
    } else if cc != [] {
      WhereCodesCase(codigos, estado);
    } else {
      WhereStatusesCase(codigos, estado);
    }
  }
}
