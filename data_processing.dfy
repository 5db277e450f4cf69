/** Row shaping (logic/data_processing.py): students from imported table
    rows, numbered export rows from a group list, and group lookup. */
module DataProcessing {
  import opened Records
  import opened Text

  /** One imported table row: the id cell and the name cell.  `None` is a
      missing cell (`NaN`); a present cell is already its text. */
  datatype Row = Row(matricula: Option<string>, nome: Option<string>)

  /** `str(cell).strip() if pd.notna(cell) else ""`. */
  function Cell(c: Option<string>): string
  {
    Strip(Field(c))
  }

  /** The students `processar_csv_para_estudantes` keeps, in row order. */
  function Kept(rows: seq<Row>): (es: seq<Student>)
    ensures |es| <= |rows|
    ensures forall e :: e in es ==> WellFormed(e)
  {
    if rows == [] then []
    else
      var n := |rows| - 1;
      var matricula, nome := Cell(rows[n].matricula), Cell(rows[n].nome);
      if matricula != "" && nome != "" then Kept(rows[..n]) + [MakeStudent(matricula, nome)]
      else Kept(rows[..n])
  }

  /** A single row is kept exactly when both its cells are non-blank. */
  lemma KeptOne(r: Row)
    ensures Kept([r]) == if Cell(r.matricula) != "" && Cell(r.nome) != ""
      then [MakeStudent(Cell(r.matricula), Cell(r.nome))] else []
  {
    assert [r][..0] == [];
  }

  /** Rows are handled one at a time, in order: the students of a
      concatenation are the concatenation of the students. */
  lemma {:induction false} KeptAppend(a: seq<Row>, b: seq<Row>)
    ensures Kept(a + b) == Kept(a) + Kept(b)
    decreases |b|
  {
    if b != [] {
      var n := |b| - 1;
      assert (a + b)[..|a + b| - 1] == a + b[..n];
      KeptAppend(a, b[..n]);
    } else {
      assert a + b == a;
    }
  }

  /** A kept student's cells come back stripped, and a missing cell is
      never kept. */
  lemma {:induction false} KeptCells(rows: seq<Row>)
    ensures forall e :: e in Kept(rows) ==>
      Stripped(e.matricula.value) && Stripped(e.nome.value)
    ensures (forall r :: r in rows ==> r.matricula.None?) ==> Kept(rows) == []
  {
    if rows != [] {
      var n := |rows| - 1;
      KeptCells(rows[..n]);
      assert forall r :: r in rows[..n] ==> r in rows;
    }
  }

  /** `processar_csv_para_estudantes` (logic/data_processing.py:9-36). */
  method ProcessarCsvParaEstudantes(rows: seq<Row>) returns (estudantes: seq<Student>)
    ensures estudantes == Kept(rows)
  {
    estudantes := [];
    for i := 0 to |rows|
      invariant estudantes == Kept(rows[..i])
    {
      assert rows[..i + 1][..i] == rows[..i];
      var matricula := if rows[i].matricula.Some? then Strip(rows[i].matricula.value) else "";
      var nome := if rows[i].nome.Some? then Strip(rows[i].nome.value) else "";
      if matricula != "" && nome != "" {
        estudantes := estudantes + [MakeStudent(matricula, nome)];
      }
    }
    assert rows[..|rows|] == rows;
  }

  // ---------------------------------------------------------------------
  // Export rows
  // ---------------------------------------------------------------------

  /** One export row: the 1-based group number and the three fields, a
      missing field read as "". */
  datatype ExportRow = ExportRow(grupo: nat, matricula: string, nome: string, completo: string)

  function RowFor(numero: nat, e: Student): ExportRow
  {
    ExportRow(numero, Field(e.matricula), Field(e.nome), Field(e.completo))
  }

  /** The rows of one group, numbered `numero`. */
  function GroupRows(numero: nat, g: seq<Student>): (rs: seq<ExportRow>)
    ensures |rs| == |g|
    ensures forall j :: 0 <= j < |g| ==> rs[j] == RowFor(numero, g[j])
  {
    seq(|g|, j requires 0 <= j < |g| => RowFor(numero, g[j]))
  }

  /** The rows of a group list: group after group, numbered from 1. */
  function RowsOf(gs: seq<seq<Student>>): seq<ExportRow>
  {
    if gs == [] then [] else RowsOf(gs[..|gs| - 1]) + GroupRows(|gs|, gs[|gs| - 1])
  }

  /** One row per student of the flattened list, carrying that student's
      fields and the 1-based number of its group; numbers never decrease. */
  lemma {:induction false} RowsOfShape(gs: seq<seq<Student>>)
    ensures |RowsOf(gs)| == |Flatten(gs)|
    ensures forall k :: 0 <= k < |RowsOf(gs)| ==>
      var r, e := RowsOf(gs)[k], Flatten(gs)[k];
      && 1 <= r.grupo <= |gs|
      && r.matricula == Field(e.matricula) && r.nome == Field(e.nome) && r.completo == Field(e.completo)
    ensures forall k, l :: 0 <= k <= l < |RowsOf(gs)| ==> RowsOf(gs)[k].grupo <= RowsOf(gs)[l].grupo
  {
    if gs != [] {
      var n := |gs| - 1;
      RowsOfShape(gs[..n]);
      var p, q := RowsOf(gs[..n]), GroupRows(|gs|, gs[n]);
      assert RowsOf(gs) == p + q;
      assert Flatten(gs) == Flatten(gs[..n]) + gs[n];
      forall k | |p| <= k < |p| + |q|
        ensures RowsOf(gs)[k] == RowFor(|gs|, Flatten(gs)[k])
      {
        assert RowsOf(gs)[k] == q[k - |p|];
        assert Flatten(gs)[k] == gs[n][k - |p|];
      }
    }
  }

  /** The rows of a prefix of the groups are a prefix of the rows. */
  lemma {:induction false} RowsOfPrefix(gs: seq<seq<Student>>, i: nat)
    requires i <= |gs|
    ensures RowsOf(gs[..i]) <= RowsOf(gs)
    decreases |gs|
  {
    if i < |gs| {
      var n := |gs| - 1;
      assert gs[..n][..i] == gs[..i];
      RowsOfPrefix(gs[..n], i);
    } else {
      assert gs[..i] == gs;
    }
  }

  /** The rows numbered `i + 1` form one block, holding the students of
      group `i` in order, right after the rows of the groups before it. */
  lemma RowsOfGroup(gs: seq<seq<Student>>, i: nat)
    requires i < |gs|
    ensures var start := |Flatten(gs[..i])|;
      start + |gs[i]| <= |RowsOf(gs)|
      && RowsOf(gs)[start..start + |gs[i]|] == GroupRows(i + 1, gs[i])
  {
    RowsOfPrefix(gs, i + 1);
    var p := gs[..i + 1];
    assert p[..i] == gs[..i];
    assert RowsOf(p) == RowsOf(gs[..i]) + GroupRows(i + 1, gs[i]);
    RowsOfShape(gs[..i]);
    var start := |Flatten(gs[..i])|;
    assert RowsOf(gs)[start..start + |gs[i]|] == RowsOf(p)[start..start + |gs[i]|];
  }

  /** `preparar_dados_exportacao` (logic/data_processing.py:39-62). */
  method PrepararDadosExportacao(grupos: seq<seq<Student>>) returns (dados: seq<ExportRow>)
    ensures dados == RowsOf(grupos)
  {
    dados := [];
    for i := 0 to |grupos|
      invariant dados == RowsOf(grupos[..i])
    {
      assert grupos[..i + 1][..i] == grupos[..i];
      ghost var antes := dados;
      var grupo := grupos[i];
      for j := 0 to |grupo|
        invariant dados == antes + GroupRows(i + 1, grupo[..j])
      {
        assert GroupRows(i + 1, grupo[..j + 1]) == GroupRows(i + 1, grupo[..j]) + [RowFor(i + 1, grupo[j])];
        var estudante := grupo[j];
        dados := dados + [ExportRow(i + 1, Field(estudante.matricula), Field(estudante.nome), Field(estudante.completo))];
      }
      assert grupo[..|grupo|] == grupo;
    }
    assert grupos[..|grupos|] == grupos;
  }

  /** `filtrar_estudantes_por_grupo` (logic/data_processing.py:79-92): the
      group with a 1-based number, or no students for a number out of range. */
  function FiltrarEstudantesPorGrupo(grupos: seq<seq<Student>>, numeroGrupo: int): (g: seq<Student>)
    ensures g == [] || g in grupos
    ensures forall e :: e in g ==> e in Flatten(grupos)
    ensures !(1 <= numeroGrupo <= |grupos|) ==> g == []
  {
    if 1 <= numeroGrupo <= |grupos| then
      FlattenSplit(grupos, numeroGrupo - 1);
      grupos[numeroGrupo - 1]
    else []
  }

  /** The students the lookup returns for group `k` are exactly those of the
      export rows numbered `k`, in the same order: those rows form one block
      and no other row carries that number. */
  lemma FiltrarMatchesRows(grupos: seq<seq<Student>>, k: int)
    requires 1 <= k <= |grupos|
    ensures var g := FiltrarEstudantesPorGrupo(grupos, k);
      var start := |Flatten(grupos[..k - 1])|;
      && start + |g| <= |RowsOf(grupos)|
      && RowsOf(grupos)[start..start + |g|] == GroupRows(k, g)
      && forall j :: 0 <= j < |RowsOf(grupos)| ==>
           (RowsOf(grupos)[j].grupo == k <==> start <= j < start + |g|)
  {
    var g := FiltrarEstudantesPorGrupo(grupos, k);
    var start := |Flatten(grupos[..k - 1])|;
    RowsOfGroup(grupos, k - 1);
    forall j | 0 <= j < |RowsOf(grupos)|
      ensures RowsOf(grupos)[j].grupo == k <==> start <= j < start + |g|
    {
      RowsNumbered(grupos, j);
      if start <= j < start + |g| {
        assert RowsOf(grupos)[j] == RowsOf(grupos)[start..start + |g|][j - start];
      }
    }
  }

  /** Every export row numbered `k` lies in the block of group `k`. */
  lemma {:induction false} RowsNumbered(gs: seq<seq<Student>>, k: nat)
    requires k < |RowsOf(gs)|
    ensures var i := RowsOf(gs)[k].grupo;
      1 <= i <= |gs|
      && |Flatten(gs[..i - 1])| <= k < |Flatten(gs[..i - 1])| + |gs[i - 1]|
  {
    var n := |gs| - 1;
    var p := RowsOf(gs[..n]);
    RowsOfShape(gs[..n]);
    assert RowsOf(gs) == p + GroupRows(|gs|, gs[n]);
    assert gs[..n + 1] == gs;
    if k < |p| {
      assert RowsOf(gs)[k] == p[k];
      RowsNumbered(gs[..n], k);
      var i := p[k].grupo;
      assert gs[..n][..i - 1] == gs[..i - 1];
      assert gs[..n][i - 1] == gs[i - 1];
    } else {
      assert Flatten(gs) == Flatten(gs[..n]) + gs[n];
      RowsOfShape(gs);
    }
  }
}
