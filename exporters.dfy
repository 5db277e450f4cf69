/** Export content (utils/exporters.py): the three columns behind the CSV and
    spreadsheet exports, the plain-text report of all groups and the plain
    list of one group. */
module Exporters {
  import opened Records
  import opened Text
  import opened DataProcessing
  import Helpers

  /** The field a text export shows: "nome" and "matricula" pick those keys,
      anything else the "completo" label; a missing key shows as "". */
  function DisplayValue(formatoExibicao: string, e: Student): (v: string)
    ensures v == Field(e.nome) || v == Field(e.matricula) || v == Field(e.completo)
  {
    if formatoExibicao == "nome" then Field(e.nome)
    else if formatoExibicao == "matricula" then Field(e.matricula)
    else Field(e.completo)
  }

  /** Every key selects one field: "nome" the name, "matricula" the id,
      and any other string, "completo" included, the full label. */
  lemma DisplayValueByKey(formatoExibicao: string, e: Student)
    ensures formatoExibicao == "nome" ==> DisplayValue(formatoExibicao, e) == Field(e.nome)
    ensures formatoExibicao == "matricula" ==> DisplayValue(formatoExibicao, e) == Field(e.matricula)
    ensures formatoExibicao != "nome" && formatoExibicao != "matricula" ==>
      DisplayValue(formatoExibicao, e) == Field(e.completo)
  {
  }

  /** The key `formato_display` derives from a display choice selects, in the
      text exports, the field that choice names. */
  lemma DisplayFollowsChoice(escolha: string, e: Student)
    ensures DisplayValue(Helpers.FormatoDisplay(escolha), e) ==
      if escolha == "Matrícula e Nome" then Field(e.completo)
      else if escolha == "Apenas Nome" then Field(e.nome)
      else Field(e.matricula)
  {
  }

  // ---------------------------------------------------------------------
  // CSV and spreadsheet columns
  // ---------------------------------------------------------------------

  /** The loop shared by `gerar_csv_grupos` and `gerar_excel_grupos`: three
      parallel columns, one entry per student, group after group. */
  method ColunasGrupos(grupos: seq<seq<Student>>) returns (grupoNums: seq<nat>, matriculas: seq<string>, nomes: seq<string>)
    ensures |grupoNums| == |matriculas| == |nomes| == |RowsOf(grupos)| == |Flatten(grupos)|
    ensures forall k :: 0 <= k < |grupoNums| ==>
      grupoNums[k] == RowsOf(grupos)[k].grupo
      && matriculas[k] == Field(Flatten(grupos)[k].matricula)
      && nomes[k] == Field(Flatten(grupos)[k].nome)
    ensures forall k :: 0 <= k < |grupoNums| ==> 1 <= grupoNums[k] <= |grupos|
    ensures forall k, l :: 0 <= k <= l < |grupoNums| ==> grupoNums[k] <= grupoNums[l]
  {
    grupoNums, matriculas, nomes := [], [], [];
    for i := 0 to |grupos|
      invariant |grupoNums| == |matriculas| == |nomes| == |RowsOf(grupos[..i])|
      invariant forall k :: 0 <= k < |grupoNums| ==>
        var r := RowsOf(grupos[..i])[k];
        grupoNums[k] == r.grupo && matriculas[k] == r.matricula && nomes[k] == r.nome
    {
      assert grupos[..i + 1][..i] == grupos[..i];
      ghost var antes := RowsOf(grupos[..i]);
      var grupo := grupos[i];
      for j := 0 to |grupo|
        invariant |grupoNums| == |matriculas| == |nomes| == |antes| + j
        invariant forall k :: 0 <= k < |grupoNums| ==>
          var r := (antes + GroupRows(i + 1, grupo))[k];
          grupoNums[k] == r.grupo && matriculas[k] == r.matricula && nomes[k] == r.nome
      {
        var estudante := grupo[j];
        grupoNums := grupoNums + [i + 1];
        matriculas := matriculas + [Field(estudante.matricula)];
        nomes := nomes + [Field(estudante.nome)];
      }
    }
    assert grupos[..|grupos|] == grupos;
    RowsOfShape(grupos);
  }

  // ---------------------------------------------------------------------
  // The plain-text report
  // ---------------------------------------------------------------------

  /** "Grupo i (n estudantes)". */
  function Header(numero: nat, tamanho: nat): string
  {
    "Grupo " + NatToString(numero) + " (" + NatToString(tamanho) + " estudantes)"
  }

  /** `"=" * 40`. */
  function Separator(): (s: string)
    ensures |s| == 40 && forall i :: 0 <= i < 40 ==> s[i] == '='
  {
    Repeat('=', 40)
  }

  /** "j. value". */
  function Item(j: nat, valor: string): string
  {
    NatToString(j) + ". " + valor
  }

  /** The lines written for group number `numero`. */
  function TxtBlock(numero: nat, g: seq<Student>, formato: string): (b: seq<string>)
    ensures |b| == |g| + 3
    ensures b[0] == Header(numero, |g|) && b[1] == Separator() && b[|g| + 2] == ""
    ensures forall j :: 0 <= j < |g| ==> b[j + 2] == Item(j + 1, DisplayValue(formato, g[j]))
  {
    [Header(numero, |g|), Separator()]
      + seq(|g|, j requires 0 <= j < |g| => Item(j + 1, DisplayValue(formato, g[j])))
      + [""]
  }

  /** The lines of the report: the blocks of the groups, numbered from 1. */
  function TxtLinesOf(gs: seq<seq<Student>>, formato: string): seq<string>
  {
    if gs == [] then [] else TxtLinesOf(gs[..|gs| - 1], formato) + TxtBlock(|gs|, gs[|gs| - 1], formato)
  }

  /** Three lines per group besides one per student. */
  lemma {:induction false} TxtLineCount(gs: seq<seq<Student>>, formato: string)
    ensures |TxtLinesOf(gs, formato)| == |Flatten(gs)| + 3 * |gs|
  {
    if gs != [] {
      TxtLineCount(gs[..|gs| - 1], formato);
    }
  }

  lemma {:induction false} TxtLinesPrefix(gs: seq<seq<Student>>, i: nat, formato: string)
    requires i <= |gs|
    ensures TxtLinesOf(gs[..i], formato) <= TxtLinesOf(gs, formato)
    decreases |gs|
  {
    if i < |gs| {
      var n := |gs| - 1;
      assert gs[..n][..i] == gs[..i];
      TxtLinesPrefix(gs[..n], i, formato);
    } else {
      assert gs[..i] == gs;
    }
  }

  /** Group `i` (0-based) is reported, under number `i + 1`, right after the
      lines of the groups before it. */
  lemma TxtBlockAt(gs: seq<seq<Student>>, i: nat, formato: string)
    requires i < |gs|
    ensures var start := |Flatten(gs[..i])| + 3 * i;
      start + |gs[i]| + 3 <= |TxtLinesOf(gs, formato)|
      && TxtLinesOf(gs, formato)[start..start + |gs[i]| + 3] == TxtBlock(i + 1, gs[i], formato)
  {
    TxtLinesPrefix(gs, i + 1, formato);
    var p := gs[..i + 1];
    assert p[..i] == gs[..i];
    assert TxtLinesOf(p, formato) == TxtLinesOf(gs[..i], formato) + TxtBlock(i + 1, gs[i], formato);
    TxtLineCount(gs[..i], formato);
    SliceAfter(TxtLinesOf(gs[..i], formato), TxtBlock(i + 1, gs[i], formato), TxtLinesOf(gs, formato));
  }

  /** The text of the report part of `gerar_txt_grupos` (utils/exporters.py:86-116). */
  method GerarTxtGrupos(grupos: seq<seq<Student>>, formatoExibicao: string) returns (conteudo: string)
    ensures conteudo == Join(TxtLinesOf(grupos, formatoExibicao), '\n')
    ensures grupos == [] ==> conteudo == ""
  {
    var linhas: seq<string> := [];
    for i := 0 to |grupos|
      invariant linhas == TxtLinesOf(grupos[..i], formatoExibicao)
    {
      assert grupos[..i + 1][..i] == grupos[..i];
      var grupo := grupos[i];
      ghost var antes := linhas;
      ghost var bloco := TxtBlock(i + 1, grupo, formatoExibicao);
      linhas := linhas + [Header(i + 1, |grupo|), Repeat('=', 40)];
      assert bloco[..2] == [Header(i + 1, |grupo|), Separator()];
      for j := 0 to |grupo|
        invariant linhas == antes + bloco[..j + 2]
      {
        var estudante := grupo[j];
        if formatoExibicao == "nome" {
          linhas := linhas + [Item(j + 1, Field(estudante.nome))];
        } else if formatoExibicao == "matricula" {
          linhas := linhas + [Item(j + 1, Field(estudante.matricula))];
        } else {
          linhas := linhas + [Item(j + 1, Field(estudante.completo))];
        }
        PrefixStep(bloco, j + 2);
      }
      linhas := linhas + [""];
      PrefixStep(bloco, |grupo| + 2);
      assert bloco[..|grupo| + 3] == bloco;
    }
    assert grupos[..|grupos|] == grupos;
    conteudo := Join(linhas, '\n');
  }

  lemma NoNewlineInDigits(s: string)
    requires AllDigits(s)
    ensures '\n' !in s
  {
  }

  /** A block holds a newline only if a displayed value does. */
  lemma TxtBlockNoNewline(numero: nat, g: seq<Student>, formato: string)
    requires forall e :: e in g ==> '\n' !in DisplayValue(formato, e)
    ensures forall l :: l in TxtBlock(numero, g, formato) ==> '\n' !in l
  {
    var b := TxtBlock(numero, g, formato);
    NoNewlineInDigits(NatToString(numero));
    NoNewlineInDigits(NatToString(|g|));
    forall k | 0 <= k < |b| ensures '\n' !in b[k] {
      if 2 <= k < |g| + 2 {
        NoNewlineInDigits(NatToString(k - 1));
        assert g[k - 2] in g;
        assert b[k] == Item(k - 1, DisplayValue(formato, g[k - 2]));
      }
    }
  }

  /** A line of the report holds a newline only if a displayed value does. */
  lemma {:induction false} TxtLinesNoNewline(gs: seq<seq<Student>>, formato: string)
    requires forall e :: e in Flatten(gs) ==> '\n' !in DisplayValue(formato, e)
    ensures forall l :: l in TxtLinesOf(gs, formato) ==> '\n' !in l
  {
    if gs != [] {
      var n := |gs| - 1;
      assert Flatten(gs) == Flatten(gs[..n]) + gs[n];
      TxtLinesNoNewline(gs[..n], formato);
      TxtBlockNoNewline(|gs|, gs[n], formato);
    }
  }

  /** When no displayed value holds a newline, splitting the report at
      newlines gives back its lines, one per header, separator, student and
      blank. */
  lemma TxtSplitsBack(gs: seq<seq<Student>>, formato: string)
    requires gs != []
    requires forall e :: e in Flatten(gs) ==> '\n' !in DisplayValue(formato, e)
    ensures Split(Join(TxtLinesOf(gs, formato), '\n'), '\n') == TxtLinesOf(gs, formato)
  {
    TxtLinesNoNewline(gs, formato);
    TxtLineCount(gs, formato);
    SplitJoin(TxtLinesOf(gs, formato), '\n');
  }

  // ---------------------------------------------------------------------
  // The list of one group
  // ---------------------------------------------------------------------

  /** One displayed value per student, in order. */
  function ListLines(grupo: seq<Student>, formato: string): (ls: seq<string>)
    ensures |ls| == |grupo|
    ensures forall j :: 0 <= j < |grupo| ==> ls[j] == DisplayValue(formato, grupo[j])
  {
    seq(|grupo|, j requires 0 <= j < |grupo| => DisplayValue(formato, grupo[j]))
  }

  /** `gerar_lista_simples` (utils/exporters.py:119-140). */
  method GerarListaSimples(grupo: seq<Student>, formatoExibicao: string) returns (texto: string)
    ensures texto == Join(ListLines(grupo, formatoExibicao), '\n')
  {
    var linhas: seq<string> := [];
    for j := 0 to |grupo|
      invariant linhas == ListLines(grupo[..j], formatoExibicao)
    {
      var estudante := grupo[j];
      if formatoExibicao == "nome" {
        linhas := linhas + [Field(estudante.nome)];
      } else if formatoExibicao == "matricula" {
        linhas := linhas + [Field(estudante.matricula)];
      } else {
        linhas := linhas + [Field(estudante.completo)];
      }
    }
    assert grupo[..|grupo|] == grupo;
    texto := Join(linhas, '\n');
  }

  /** When no displayed value holds a newline, the list has exactly one line
      per student, in order; an empty group gives an empty text. */
  lemma ListSplitsBack(grupo: seq<Student>, formato: string)
    requires forall e :: e in grupo ==> '\n' !in DisplayValue(formato, e)
    ensures grupo != [] ==> Split(Join(ListLines(grupo, formato), '\n'), '\n') == ListLines(grupo, formato)
    ensures grupo == [] ==> Join(ListLines(grupo, formato), '\n') == ""
  {
    if grupo != [] {
      var ls := ListLines(grupo, formato);
      forall l | l in ls ensures '\n' !in l {
        var j :| 0 <= j < |ls| && ls[j] == l;
        assert grupo[j] in grupo;
      }
      SplitJoin(ls, '\n');
    }
  }
}
