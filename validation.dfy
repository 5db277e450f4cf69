/** Validation of typed-in student lists (logic/validation.py): the two-format
    line parser, the duplicate-id counter, the line-by-line driver and the
    preview counter. */
module Validation {
  import opened Records
  import opened Text

  const MSG_VAZIO: string := "Matrícula ou nome vazio"
  const MSG_SEM_NOME: string := "Nome não encontrado após matrícula"
  const MSG_FORMATO: string := "Formato não reconhecido. Use 'Matrícula, Nome' ou 'Matrícula Nome'"

  /** The three answers of `validar_formato_entrada`: `(True, None)` for a
      blank line, `(True, record)` and `(False, message)`. */
  datatype LineOutcome = Blank | Accepted(estudante: Student) | Rejected(erro: string)

  /** The match of `^(\d+)\s*(.*?)$` against a stripped line: the digit run
      and the remainder after the whitespace that follows it. */
  datatype DigitsMatch = DigitsMatch(matricula: string, resto: string)

  /** `re.match(r'^(\d+)\s*(.*?)$', s)`.  The digit run and the whitespace run
      are greedy; `.` does not cross a newline and `$` only matches at the end
      of a string that does not end in a newline, so the pattern matches
      exactly when the line starts with a digit and the remainder holds no
      newline (backtracking into the digits or the spaces only lengthens the
      remainder). */
  function MatchDigitsName(s: string): (m: Option<DigitsMatch>)
    requires Stripped(s)
    ensures m.Some? ==> var d, t := m.value.matricula, m.value.resto;
      && d != [] && AllDigits(d) && |d| + |t| <= |s|
      && s == d + s[|d|..|s| - |t|] + t
      && AllSpace(s[|d|..|s| - |t|])
      && (|d| < |s| ==> !IsDigit(s[|d|]))
      && (t == [] || !IsSpace(t[0]))
      && '\n' !in t
    ensures m.None? <==>
      (s == [] || !IsDigit(s[0])
       || '\n' in s[LeadingDigits(s) + LeadingSpaces(s[LeadingDigits(s)..])..])
  {
    var d := LeadingDigits(s);
    if d == 0 then None
    else
      var w := LeadingSpaces(s[d..]);
      var t := s[d + w..];
      if '\n' in t then None
      else
        assert s == s[..d] + s[d..d + w] + t;
        assert s[d..d + w] == s[d..][..w];
        Some(DigitsMatch(s[..d], t))
  }

  /** The "Matrícula, Nome" format: split at the first comma, both sides
      stripped, both required. */
  function ParseComma(s: string): (o: LineOutcome)
    requires ',' in s
    ensures !o.Blank?
    ensures o.Accepted? ==> WellFormed(o.estudante)
    ensures o.Accepted? ==> Stripped(o.estudante.matricula.value) && Stripped(o.estudante.nome.value)
    ensures o.Accepted? ==> ',' !in o.estudante.matricula.value
    ensures o.Rejected? ==> o.erro == MSG_VAZIO
  {
    var k := IndexOf(s, ',');
    var matricula := Strip(s[..k]);
    var nome := Strip(s[k + 1..]);
    StripMembers(s[..k]);
    if matricula == [] || nome == [] then Rejected(MSG_VAZIO)
    else Accepted(MakeStudent(matricula, nome))
  }

  /** The "Matrícula Nome" format on a stripped, comma-free line. */
  function ParseDigits(s: string): (o: LineOutcome)
    requires Stripped(s) && ',' !in s
    ensures !o.Blank?
    ensures o.Accepted? ==> WellFormed(o.estudante)
    ensures o.Accepted? ==> Stripped(o.estudante.matricula.value) && Stripped(o.estudante.nome.value)
    ensures o.Accepted? ==> AllDigits(o.estudante.matricula.value) && ',' !in o.estudante.matricula.value
    ensures o.Rejected? ==> o.erro == MSG_SEM_NOME || o.erro == MSG_FORMATO
  {
    match MatchDigitsName(s)
    case Some(m) =>
      var nome := Strip(m.resto);
      if nome == [] then Rejected(MSG_SEM_NOME)
      else
        assert ',' !in m.matricula by {
          forall i | 0 <= i < |m.matricula| ensures m.matricula[i] != ',' {
            assert IsDigit(m.matricula[i]);
          }
        }
        assert IsDigit(m.matricula[0]) && IsDigit(m.matricula[|m.matricula| - 1]);
        Accepted(MakeStudent(m.matricula, nome))
    case None => Rejected(MSG_FORMATO)
  }

  /** `validar_formato_entrada` (logic/validation.py:9-54). */
  function ValidarFormatoEntrada(linha: string): (o: LineOutcome)
    ensures o.Blank? <==> AllSpace(linha)
    ensures o.Accepted? ==> WellFormed(o.estudante)
    ensures o.Accepted? ==> Stripped(o.estudante.matricula.value) && Stripped(o.estudante.nome.value)
    ensures o.Accepted? ==> ',' !in o.estudante.matricula.value
    ensures o.Accepted? && ',' !in linha ==> AllDigits(o.estudante.matricula.value)
    ensures o.Rejected? ==> o.erro == MSG_VAZIO || o.erro == MSG_SEM_NOME || o.erro == MSG_FORMATO
    ensures o.Rejected? ==> (o.erro == MSG_VAZIO <==> ',' in linha)
  {
    var s := Strip(linha);
    StripMembers(linha);
    if s == [] then Blank
    else if ',' in s then ParseComma(s)
    else ParseDigits(s)
  }

  /** The label `completo` of a parsed record parses back to the same record. */
  lemma ParseCompleto(e: Student)
    requires WellFormed(e)
    requires Stripped(e.matricula.value) && Stripped(e.nome.value)
    requires ',' !in e.matricula.value
    ensures ValidarFormatoEntrada(e.completo.value) == Accepted(e)
  {
    var m, n := e.matricula.value, e.nome.value;
    var linha := m + ", " + n;
    assert linha == m + [','] + (" " + n);
    assert linha[0] == m[0] && linha[|linha| - 1] == n[|n| - 1];
    StripStripped(linha);
    IndexOfAfter(m, ',', " " + n);
    assert linha[..|m|] == m;
    assert linha[|m| + 1..] == [' '] + n;
    StripStripped(m);
    StripLeadingBlank(n);
    StripStripped(n);
  }

  /** A line with a comma parses as "Matrícula, Nome": whatever the blanks
      around the two sides, the first comma splits it, both sides are
      stripped, and an empty side is rejected. */
  lemma ParseCommaLine(m: string, n: string)
    requires ',' !in m
    ensures ValidarFormatoEntrada(m + "," + n) ==
      if Strip(m) == [] || Strip(n) == [] then Rejected(MSG_VAZIO)
      else Accepted(MakeStudent(Strip(m), Strip(n)))
  {
    var linha := m + "," + n;
    var am := LeadingSpaces(m);
    StripShape(n);
    var e := if Strip(n) == [] then 0 else LeadingSpaces(n) + |Strip(n)|;
    var a, b := m[am..], n[..e];
    CommaCore(m, n, am, e);
    CommaCuts(m, n, am, e);
    assert ',' !in a by {
      forall i | 0 <= i < |a| ensures a[i] != ',' {
        assert a[i] in m;
      }
    }
    var core := a + [','] + b;
    StripAround(m[..am], core, n[e..]);
    SameStrip(linha, core);
    CommaSplit(a, b);
    StripFront(m[..am], a);
    StripBack(b, n[e..]);
  }

  /** Blanks around a line without surrounding blanks are what `strip` cuts. */
  lemma StripAround(u: string, r: string, v: string)
    requires AllSpace(u) && AllSpace(v) && Stripped(r)
    ensures Strip(u + r + v) == r
  {
    assert u + r + v == u + (r + v);
    StripFront(u, r + v);
    StripBack(r, v);
    StripStripped(r);
  }

  /** The parse of a line depends only on the line after `strip`. */
  lemma SameStrip(x: string, y: string)
    requires Strip(x) == Strip(y)
    ensures ValidarFormatoEntrada(x) == ValidarFormatoEntrada(y)
  {
  }

  /** A stripped comma line: the sides before and after the first comma,
      each stripped, are the id and the name. */
  lemma CommaSplit(a: string, b: string)
    requires ',' !in a && Stripped(a + [','] + b)
    ensures ValidarFormatoEntrada(a + [','] + b) ==
      if Strip(a) == [] || Strip(b) == [] then Rejected(MSG_VAZIO)
      else Accepted(MakeStudent(Strip(a), Strip(b)))
  {
    var core := a + [','] + b;
    StripStripped(core);
    assert core[|a|] == ',';
    IndexOfAfter(a, ',', b);
    assert core[..|a|] == a;
    assert core[|a| + 1..] == b;
  }

  /** The two sides of a comma line with their outer blanks cut off: what
      is cut is whitespace, and what is left has no blank at either end. */
  lemma CommaCore(m: string, n: string, am: nat, e: nat)
    requires am == LeadingSpaces(m)
    requires StripSits(n, LeadingSpaces(n), |Strip(n)|)
    requires e == if Strip(n) == [] then 0 else LeadingSpaces(n) + |Strip(n)|
    ensures e <= |n| && AllSpace(m[..am]) && AllSpace(n[e..])
    ensures Stripped(m[am..] + [','] + n[..e])
  {
    var core := m[am..] + [','] + n[..e];
    if Strip(n) == [] {
      assert n[e..] == n;
    } else {
      var sn := Strip(n);
      assert n[e - 1] == sn[|sn| - 1];
      assert core[|core| - 1] == n[e - 1];
    }
    if am < |m| {
      assert core[0] == m[am];
    }
  }

  /** Cutting both sides of a comma line leaves the line in three pieces. */
  lemma CommaCuts(m: string, n: string, am: nat, e: nat)
    requires am <= |m| && e <= |n|
    ensures m == m[..am] + m[am..] && n == n[..e] + n[e..]
    ensures m + "," + n == m[..am] + (m[am..] + [','] + n[..e]) + n[e..]
  {
  }

  /** A digit run, whitespace and a name parse as "Matrícula Nome"; with no
      name after the whitespace the line is a bare id and is rejected. */
  lemma ParseDigitsLine(d: string, w: string, n: string)
    requires d != [] && AllDigits(d)
    requires w != [] && AllSpace(w)
    requires Stripped(n) && ',' !in n && '\n' !in n
    ensures ValidarFormatoEntrada(d + w + n) ==
      if n == [] then Rejected(MSG_SEM_NOME) else Accepted(MakeStudent(d, n))
  {
    var linha := d + w + n;
    if n == [] {
      assert linha == d + w;
      StripBack(d, w);
      assert Stripped(d);
      StripStripped(d);
      DigitsLineRejected(d, w);
    } else {
      assert linha[0] == d[0] && linha[|linha| - 1] == n[|n| - 1];
      StripStripped(linha);
      assert ',' !in linha by {
        forall i | 0 <= i < |linha| ensures linha[i] != ',' {
          if i < |d| {
            assert IsDigit(linha[i]);
          } else if i < |d| + |w| {
            assert linha[i] == w[i - |d|];
          } else {
            assert linha[i] == n[i - |d| - |w|];
          }
        }
      }
      MatchDigitsBlank(d, w, n);
      StripStripped(n);
      assert ParseDigits(linha) == Accepted(MakeStudent(d, n));
    }
  }

  /** A digit run with trailing whitespace strips to the bare id. */
  lemma DigitsLineRejected(d: string, w: string)
    requires d != [] && AllDigits(d) && AllSpace(w)
    requires Strip(d + w) == d
    ensures ValidarFormatoEntrada(d + w) == Rejected(MSG_SEM_NOME)
  {
    RejectsMissingName(d);
    StripMembers(d + w);
  }

  /** The digit pattern splits a digit run, whitespace and a name at the
      whitespace. */
  lemma MatchDigitsBlank(d: string, w: string, n: string)
    requires d != [] && AllDigits(d)
    requires w != [] && AllSpace(w)
    requires n != [] && Stripped(n) && '\n' !in n
    ensures Stripped(d + w + n)
    ensures MatchDigitsName(d + w + n) == Some(DigitsMatch(d, n))
  {
    var linha := d + w + n;
    assert linha[0] == d[0] && linha[|linha| - 1] == n[|n| - 1];
    assert linha == d + (w + n);
    DigitsBlankCuts(linha, d, w, n);
  }

  /** Where the digit run and the whitespace run of `d + w + n` end. */
  lemma {:induction false} DigitsBlankCuts(linha: string, d: string, w: string, n: string)
    requires linha == d + (w + n)
    requires d != [] && AllDigits(d)
    requires w != [] && AllSpace(w)
    requires n == [] || !IsSpace(n[0])
    ensures LeadingDigits(linha) == |d| && linha[..|d|] == d
    ensures LeadingSpaces(linha[|d|..]) == |w| && linha[|d| + |w|..] == n
  {
    var r := w + n;
    assert IsSpace(w[0]) && r[0] == w[0];
    LeadingDigitsBefore(d, r);
    LeadingSpacesBefore(w, n);
    assert linha[|d| + |w|..] == r[|w|..];
  }

  /** An empty id before the comma is rejected. */
  lemma RejectsEmptyId(n: string)
    ensures ValidarFormatoEntrada("," + n) == Rejected(MSG_VAZIO)
  {
    var linha := "," + n;
    StripKeepsFirst(linha);
    assert IndexOf(Strip(linha), ',') == 0;
  }

  /** An empty name after the only comma is rejected. */
  lemma RejectsEmptyName(m: string)
    requires ',' !in m
    ensures ValidarFormatoEntrada(m + ",") == Rejected(MSG_VAZIO)
  {
    var linha := m + ",";
    var s := Strip(linha);
    var a := LeadingSpaces(linha);
    StripKeepsLast(linha);
    assert s == m[a..] + ",";
    assert ',' !in m[a..] by {
      forall i | 0 <= i < |m| - a ensures m[a..][i] != ',' {
        assert m[a + i] in m;
      }
    }
    IndexOfAfter(m[a..], ',', []);
    assert s == m[a..] + [','] + [];
    assert s[|s|..] == [];
  }

  /** A bare digit run has no name after it. */
  lemma RejectsMissingName(d: string)
    requires d != [] && AllDigits(d)
    ensures ValidarFormatoEntrada(d) == Rejected(MSG_SEM_NOME)
  {
    assert Stripped(d);
    StripStripped(d);
    assert ',' !in d by {
      forall i | 0 <= i < |d| ensures d[i] != ',' {
        assert IsDigit(d[i]);
      }
    }
  }

  /** A comma-free line not starting with a digit is in neither format. */
  lemma RejectsUnknown(linha: string)
    requires !AllSpace(linha) && ',' !in linha
    requires !IsDigit(Strip(linha)[0])
    ensures ValidarFormatoEntrada(linha) == Rejected(MSG_FORMATO)
  {
    StripMembers(linha);
  }

  // ---------------------------------------------------------------------
  // Duplicate ids
  // ---------------------------------------------------------------------

  /** What `validar_duplicatas` records for one id. */
  datatype Ocorrencias = Ocorrencias(count: nat, indices: seq<nat>, nomes: seq<string>)

  /** `str(estudante.get("matricula", "")).strip()`. */
  function Key(e: Student): string
  {
    Strip(Field(e.matricula))
  }

  /** The ids and the names of a student list, position by position. */
  function Keys(es: seq<Student>): (ks: seq<string>)
    ensures |ks| == |es|
    ensures forall i :: 0 <= i < |es| ==> ks[i] == Key(es[i])
  {
    seq(|es|, i requires 0 <= i < |es| => Key(es[i]))
  }

  function Names(es: seq<Student>): (ns: seq<string>)
    ensures |ns| == |es|
    ensures forall i :: 0 <= i < |es| ==> ns[i] == Field(es[i].nome)
  {
    seq(|es|, i requires 0 <= i < |es| => Field(es[i].nome))
  }

  /** The entry the counting loop holds for id `m` after the positions of
      `ks` (ids) and `ns` (names). */
  function Info(ks: seq<string>, ns: seq<string>, m: string): Ocorrencias
    requires |ks| == |ns|
  {
    if ks == [] then Ocorrencias(0, [], [])
    else
      var n := |ks| - 1;
      var p := Info(ks[..n], ns[..n], m);
      if ks[n] == m then Ocorrencias(p.count + 1, p.indices + [n], p.nomes + [ns[n]])
      else p
  }

  /** The non-empty ids among `ks`. */
  function Ids(ks: seq<string>): set<string>
  {
    set i | 0 <= i < |ks| && ks[i] != "" :: ks[i]
  }

  /** The ids counted more than once, with their entries. */
  function DuplicatasOf(ks: seq<string>, ns: seq<string>): map<string, Ocorrencias>
    requires |ks| == |ns|
  {
    map m | m in Ids(ks) && Info(ks, ns, m).count > 1 :: Info(ks, ns, m)
  }

  /** The result of `validar_duplicatas` on a student list. */
  function Duplicatas(es: seq<Student>): map<string, Ocorrencias>
  {
    DuplicatasOf(Keys(es), Names(es))
  }

  /** The entry for `m` lists exactly the positions holding `m`, ascending,
      with the names at those positions in the same order. */
  lemma {:induction false} InfoPositions(ks: seq<string>, ns: seq<string>, m: string)
    requires |ks| == |ns|
    ensures var o := Info(ks, ns, m);
      && o.count == |o.indices| == |o.nomes|
      && (forall k :: 0 <= k < |o.indices| ==> o.indices[k] < |ks| && ks[o.indices[k]] == m)
      && (forall k :: 0 <= k < |o.indices| ==> o.nomes[k] == ns[o.indices[k]])
      && (forall k, l :: 0 <= k < l < |o.indices| ==> o.indices[k] < o.indices[l])
      && (forall j :: 0 <= j < |ks| && ks[j] == m ==> j in o.indices)
  {
    if ks != [] {
      var n := |ks| - 1;
      InfoPositions(ks[..n], ns[..n], m);
    }
  }

  /** The counts before and after position `i` is counted. */
  lemma InfoStep(ks: seq<string>, ns: seq<string>, i: nat, m: string)
    requires |ks| == |ns| && i < |ks|
    ensures Info(ks[..i + 1], ns[..i + 1], m) ==
      var p := Info(ks[..i], ns[..i], m);
      if ks[i] == m then Ocorrencias(p.count + 1, p.indices + [i], p.nomes + [ns[i]]) else p
  {
    assert ks[..i + 1][..i] == ks[..i];
    assert ns[..i + 1][..i] == ns[..i];
  }

  /** An id not yet seen has the initial entry. */
  lemma {:induction false} InfoAbsent(ks: seq<string>, ns: seq<string>, m: string)
    requires |ks| == |ns|
    requires forall j :: 0 <= j < |ks| ==> ks[j] != m
    ensures Info(ks, ns, m) == Ocorrencias(0, [], [])
  {
    if ks != [] {
      InfoAbsent(ks[..|ks| - 1], ns[..|ns| - 1], m);
    }
  }

  lemma IdsStep(ks: seq<string>, i: nat)
    requires i < |ks|
    ensures Ids(ks[..i + 1]) == Ids(ks[..i]) + (if ks[i] != "" then {ks[i]} else {})
  {
    var a, b := ks[..i], ks[..i + 1];
    assert forall j :: 0 <= j < i ==> b[j] == a[j];
    assert b[i] == ks[i];
  }

  /** An id is reported exactly when it is non-empty and held by two
      different positions; its entry is the one `Info` describes. */
  lemma DuplicatasIff(es: seq<Student>, m: string)
    ensures m in Duplicatas(es) <==>
      m != "" && exists i, j :: 0 <= i < j < |es| && Key(es[i]) == m && Key(es[j]) == m
    ensures m in Duplicatas(es) ==> Duplicatas(es)[m] == Info(Keys(es), Names(es), m)
  {
    var ks, ns := Keys(es), Names(es);
    if m in Duplicatas(es) {
      var i, j := DuplicateWitness(ks, ns, m);
      assert Key(es[i]) == m && Key(es[j]) == m;
    }
    if m != "" && exists i, j :: 0 <= i < j < |es| && Key(es[i]) == m && Key(es[j]) == m {
      var i, j :| 0 <= i < j < |es| && Key(es[i]) == m && Key(es[j]) == m;
      DuplicateFound(ks, ns, m, i, j);
    }
  }

  /** A reported id is held by two different positions. */
  lemma DuplicateWitness(ks: seq<string>, ns: seq<string>, m: string) returns (i: nat, j: nat)
    requires |ks| == |ns| && m in DuplicatasOf(ks, ns)
    ensures m != "" && i < j < |ks| && ks[i] == m && ks[j] == m
  {
    InfoPositions(ks, ns, m);
    var o := Info(ks, ns, m);
    i, j := o.indices[0], o.indices[1];
  }

  /** A non-empty id held by two different positions is reported. */
  lemma DuplicateFound(ks: seq<string>, ns: seq<string>, m: string, i: nat, j: nat)
    requires |ks| == |ns| && m != "" && i < j < |ks| && ks[i] == m && ks[j] == m
    ensures m in DuplicatasOf(ks, ns)
  {
    InfoPositions(ks, ns, m);
    var o := Info(ks, ns, m);
    assert i in o.indices && j in o.indices;
    var k :| 0 <= k < |o.indices| && o.indices[k] == i;
    var l :| 0 <= l < |o.indices| && o.indices[l] == j;
    assert k != l;
    assert m in Ids(ks);
  }

  /** The counting dictionary after the first `i` positions: one entry per
      non-empty id seen so far, as `Info` describes it. */
  ghost predicate Counted(c: map<string, Ocorrencias>, ks: seq<string>, ns: seq<string>, i: nat)
    requires |ks| == |ns| && i <= |ks|
  {
    && (forall m :: m in c <==> m in Ids(ks[..i]))
    && (forall m :: m in c ==> c[m] == Info(ks[..i], ns[..i], m))
  }

  /** One iteration of the counting loop keeps the dictionary counted. */
  lemma CountedStep(ks: seq<string>, ns: seq<string>, i: nat, antes: map<string, Ocorrencias>, depois: map<string, Ocorrencias>)
    requires |ks| == |ns| && i < |ks|
    requires Counted(antes, ks, ns, i)
    requires ks[i] == "" ==> depois == antes
    requires ks[i] != "" ==>
      var info := if ks[i] in antes then antes[ks[i]] else Ocorrencias(0, [], []);
      depois == antes[ks[i] := Ocorrencias(info.count + 1, info.indices + [i], info.nomes + [ns[i]])]
    ensures Counted(depois, ks, ns, i + 1)
  {
    IdsStep(ks, i);
    if ks[i] != "" && ks[i] !in antes {
      InfoAbsent(ks[..i], ns[..i], ks[i]);
    }
    forall m | m in depois ensures depois[m] == Info(ks[..i + 1], ns[..i + 1], m) {
      InfoStep(ks, ns, i, m);
    }
  }

  /** Updating a key twice leaves only the second value. */
  lemma MapUpdateTwice<K, V>(antes: map<K, V>, depois: map<K, V>, k: K)
    requires k in depois && forall x :: x in depois <==> x in antes || x == k
    requires forall x :: x in antes && x != k ==> depois[x] == antes[x]
    ensures depois == antes[k := depois[k]]
  {
  }

  /** Keeping the entries counted more than once gives the duplicates. */
  lemma CountedFilter(c: map<string, Ocorrencias>, ks: seq<string>, ns: seq<string>)
    requires |ks| == |ns| && Counted(c, ks, ns, |ks|)
    ensures (map m | m in c && c[m].count > 1 :: c[m]) == DuplicatasOf(ks, ns)
  {
    assert ks[..|ks|] == ks && ns[..|ns|] == ns;
  }

  /** `validar_duplicatas` (logic/validation.py:57-89). */
  method ValidarDuplicatas(estudantes: seq<Student>) returns (duplicatas: map<string, Ocorrencias>)
    ensures duplicatas == Duplicatas(estudantes)
  {
    ghost var ks, ns := Keys(estudantes), Names(estudantes);
    var contagem: map<string, Ocorrencias> := map[];
    for i := 0 to |estudantes|
      invariant Counted(contagem, ks, ns, i)
    {
      ghost var antes := contagem;
      var matricula := Strip(Field(estudantes[i].matricula));
      if matricula != "" {
        if matricula !in contagem {
          contagem := contagem[matricula := Ocorrencias(0, [], [])];
        }
        var info := contagem[matricula];
        assert info == if matricula in antes then antes[matricula] else Ocorrencias(0, [], []);
        contagem := contagem[matricula := Ocorrencias(info.count + 1, info.indices + [i], info.nomes + [Field(estudantes[i].nome)])];
        MapUpdateTwice(antes, contagem, matricula);
      }
      CountedStep(ks, ns, i, antes, contagem);
    }
    CountedFilter(contagem, ks, ns);
    duplicatas := map m | m in contagem && contagem[m].count > 1 :: contagem[m];
  }

  // ---------------------------------------------------------------------
  // The line-by-line driver
  // ---------------------------------------------------------------------

  /** One entry of `erros`: the 1-based line number, the stripped line and
      the message. */
  datatype ErroLinha = ErroLinha(linha: nat, conteudo: string, erro: string)

  /** The dictionary `processar_entrada_com_validacao` returns. */
  datatype Processamento = Processamento(
    estudantes: seq<Student>, total: nat, erros: seq<ErroLinha>,
    duplicatas: map<string, Ocorrencias>, valido: bool)

  /** The records accepted from the lines `ls`, in line order. */
  function AcceptedOf(ls: seq<string>): seq<Student>
  {
    if ls == [] then []
    else
      var n := |ls| - 1;
      match ValidarFormatoEntrada(ls[n])
      case Accepted(e) => AcceptedOf(ls[..n]) + [e]
      case _ => AcceptedOf(ls[..n])
  }

  /** The errors of the lines `ls`, in line order, numbered from 1. */
  function ErrorsOf(ls: seq<string>): seq<ErroLinha>
  {
    if ls == [] then []
    else
      var n := |ls| - 1;
      ErrorsOf(ls[..n]) + LineError(n, ls[n])
  }

  /** The error of the line at 0-based position `n`, if it is rejected. */
  function LineError(n: nat, linha: string): (r: seq<ErroLinha>)
    ensures |r| <= 1
    ensures r != [] <==> ValidarFormatoEntrada(linha).Rejected?
  {
    match ValidarFormatoEntrada(linha)
    case Rejected(erro) => [ErroLinha(n + 1, Strip(linha), erro)]
    case _ => []
  }

  /** The number of lines that are not blank. */
  function NonBlankCount(ls: seq<string>): (c: nat)
    ensures c <= |ls|
  {
    if ls == [] then 0
    else NonBlankCount(ls[..|ls| - 1]) + (if AllSpace(ls[|ls| - 1]) then 0 else 1)
  }

  /** Every non-blank line is either accepted or reported, never both. */
  lemma {:induction false} LinesPartition(ls: seq<string>)
    ensures |AcceptedOf(ls)| + |ErrorsOf(ls)| == NonBlankCount(ls)
  {
    if ls != [] {
      LinesPartition(ls[..|ls| - 1]);
    }
  }

  /** Every accepted record is well formed. */
  lemma {:induction false} AcceptedWellFormed(ls: seq<string>)
    ensures forall e :: e in AcceptedOf(ls) ==> WellFormed(e)
  {
    if ls != [] {
      AcceptedWellFormed(ls[..|ls| - 1]);
    }
  }

  /** The error `e` names, by its 1-based number, a line of `ls` that the
      parser rejects with that message, and carries that line stripped. */
  ghost predicate Locates(ls: seq<string>, e: ErroLinha)
  {
    && 1 <= e.linha <= |ls|
    && ValidarFormatoEntrada(ls[e.linha - 1]) == Rejected(e.erro)
    && e.conteudo == Strip(ls[e.linha - 1])
  }

  /** What an error says of a prefix of the lines it says of all of them. */
  lemma LocatesExtend(ls: seq<string>, n: nat, e: ErroLinha)
    requires n <= |ls| && Locates(ls[..n], e)
    ensures Locates(ls, e) && e.linha <= n
  {
    assert ls[..n][e.linha - 1] == ls[e.linha - 1];
  }

  /** Each error names a line the parser rejects with that message, and the
      numbers ascend. */
  lemma {:induction false} ErrorsLocated(ls: seq<string>)
    ensures forall k :: 0 <= k < |ErrorsOf(ls)| ==> Locates(ls, ErrorsOf(ls)[k])
    ensures forall k, l :: 0 <= k < l < |ErrorsOf(ls)| ==> ErrorsOf(ls)[k].linha < ErrorsOf(ls)[l].linha
  {
    if ls != [] {
      var n := |ls| - 1;
      ErrorsLocated(ls[..n]);
      var p := ErrorsOf(ls[..n]);
      forall k | 0 <= k < |p|
        ensures Locates(ls, p[k]) && p[k].linha <= n
      {
        LocatesExtend(ls, n, p[k]);
      }
    }
  }

  /** Every rejected line is reported. */
  lemma {:induction false} ErrorsComplete(ls: seq<string>, i: nat)
    requires i < |ls| && ValidarFormatoEntrada(ls[i]).Rejected?
    ensures exists k :: 0 <= k < |ErrorsOf(ls)| && ErrorsOf(ls)[k].linha == i + 1
  {
    var n := |ls| - 1;
    ErrorsOfStep(ls);
    if i < n {
      assert ls[..n][i] == ls[i];
      ErrorsComplete(ls[..n], i);
      var k :| 0 <= k < |ErrorsOf(ls[..n])| && ErrorsOf(ls[..n])[k].linha == i + 1;
      PrefixAt(ErrorsOf(ls[..n]), ErrorsOf(ls), k);
    } else {
      assert i == n && ValidarFormatoEntrada(ls[n]).Rejected?;
      var k := |ErrorsOf(ls)| - 1;
      assert ErrorsOf(ls)[k].linha == i + 1;
    }
  }

  /** One more line keeps the earlier errors and, when it is rejected, adds
      its own error last. */
  lemma ErrorsOfStep(ls: seq<string>)
    requires ls != []
    ensures ErrorsOf(ls[..|ls| - 1]) <= ErrorsOf(ls)
    ensures ValidarFormatoEntrada(ls[|ls| - 1]).Rejected? ==>
      |ErrorsOf(ls)| > 0 && ErrorsOf(ls)[|ErrorsOf(ls)| - 1].linha == |ls|
  {
    var n := |ls| - 1;
    var q := LineError(n, ls[n]);
    if q != [] {
      assert q[0].linha == n + 1;
    }
  }

  /** `processar_entrada_com_validacao` (logic/validation.py:135-172). */
  method ProcessarEntradaComValidacao(textoInput: string) returns (r: Processamento)
    ensures r.estudantes == AcceptedOf(Split(textoInput, '\n'))
    ensures r.erros == ErrorsOf(Split(textoInput, '\n'))
    ensures r.total == |r.estudantes|
    ensures r.valido <==> r.erros == []
    ensures r.duplicatas == Duplicatas(r.estudantes)
  {
    var linhas := Split(textoInput, '\n');
    var estudantes: seq<Student> := [];
    var errosLinhas: seq<ErroLinha> := [];
    for i := 0 to |linhas|
      invariant estudantes == AcceptedOf(linhas[..i])
      invariant errosLinhas == ErrorsOf(linhas[..i])
    {
      assert linhas[..i + 1][..i] == linhas[..i];
      var resultado := ValidarFormatoEntrada(linhas[i]);
      match resultado
      case Blank =>
      case Accepted(e) =>
        estudantes := estudantes + [e];
      case Rejected(erro) =>
        errosLinhas := errosLinhas + [ErroLinha(i + 1, Strip(linhas[i]), erro)];
    }
    assert linhas[..|linhas|] == linhas;
    var duplicatas := ValidarDuplicatas(estudantes);
    r := Processamento(estudantes, |estudantes|, errosLinhas, duplicatas, |errosLinhas| == 0);
  }

  // ---------------------------------------------------------------------
  // The preview
  // ---------------------------------------------------------------------

  /** `[l.strip() for l in linhas if l.strip()]`. */
  function NonBlankLines(ls: seq<string>): (r: seq<string>)
    ensures |r| == NonBlankCount(ls)
    ensures forall i :: 0 <= i < |r| ==> r[i] != [] && Stripped(r[i])
  {
    if ls == [] then []
    else
      var n := |ls| - 1;
      var s := Strip(ls[n]);
      if s == [] then NonBlankLines(ls[..n]) else NonBlankLines(ls[..n]) + [s]
  }

  /** One entry of the preview. */
  datatype ItemPreview = ItemPreview(linha: nat, conteudo: string, valido: bool, dados: Option<Student>)

  /** The dictionary `extrair_preview_dados` returns. */
  datatype Preview = Preview(
    totalLinhas: nat, mostradas: nat, preview: seq<ItemPreview>,
    validasPreview: nat, invalidasPreview: int)

  /** The preview entry for the `i`-th (0-based) non-blank line. */
  function PreviewItem(i: nat, linha: string): ItemPreview
  {
    var o := ValidarFormatoEntrada(linha);
    ItemPreview(i + 1, linha, !o.Rejected?, if o.Accepted? then Some(o.estudante) else None)
  }

  /** `sum(1 for p in preview if p["valido"])`. */
  function CountValid(ps: seq<ItemPreview>): (n: nat)
    ensures n <= |ps|
    ensures n == |ps| <==> forall i :: 0 <= i < |ps| ==> ps[i].valido
    ensures n == 0 <==> forall i :: 0 <= i < |ps| ==> !ps[i].valido
  {
    if ps == [] then 0
    else
      var k := |ps| - 1;
      var c := CountValid(ps[..k]);
      assert forall i :: 0 <= i < k ==> ps[..k][i] == ps[i];
      c + (if ps[k].valido then 1 else 0)
  }

  /** The entries for a list of non-blank lines, numbered from 1. */
  function PreviewOf(ls: seq<string>): (ps: seq<ItemPreview>)
    ensures |ps| == |ls|
    ensures forall j :: 0 <= j < |ls| ==> ps[j] == PreviewItem(j, ls[j])
  {
    seq(|ls|, j requires 0 <= j < |ls| => PreviewItem(j, ls[j]))
  }

  /** `extrair_preview_dados` (logic/validation.py:175-208). */
  method ExtrairPreviewDados(textoInput: string, limite: int) returns (p: Preview)
    ensures p.totalLinhas == NonBlankCount(Split(textoInput, '\n'))
    ensures p.preview == PreviewOf(PyPrefix(NonBlankLines(Split(textoInput, '\n')), limite))
    ensures p.mostradas == |p.preview|
    ensures p.mostradas == if limite >= 0 then Min(limite, p.totalLinhas) else Max(0, p.totalLinhas + limite)
    ensures p.validasPreview == CountValid(p.preview)
    ensures p.validasPreview + p.invalidasPreview == p.mostradas
  {
    var linhas := NonBlankLines(Split(textoInput, '\n'));
    var totalLinhas := |linhas|;
    var mostrar := PyPrefix(linhas, limite);
    ghost var todos := PreviewOf(mostrar);
    var preview: seq<ItemPreview> := [];
    for i := 0 to |mostrar|
      invariant preview == todos[..i]
    {
      PrefixStep(todos, i);
      preview := preview + [PreviewItem(i, mostrar[i])];
    }
    assert todos[..|mostrar|] == todos;
    var validas := CountValid(preview);
    p := Preview(totalLinhas, |preview|, preview, validas, |preview| - validas);
  }

  /** Entry `i` of the preview is the `i`-th non-blank line, stripped, with
      its parse: a record exactly when the line is accepted, and marked valid
      exactly when it carries one. */
  lemma PreviewLines(textoInput: string, limite: int)
    ensures var ls := NonBlankLines(Split(textoInput, '\n'));
      var ps := PreviewOf(PyPrefix(ls, limite));
      forall i :: 0 <= i < |ps| ==>
        && ps[i] == PreviewItem(i, ls[i])
        && ps[i].linha == i + 1 && ps[i].conteudo == ls[i]
        && (ps[i].valido <==> ps[i].dados.Some?)
  {
    var ls := NonBlankLines(Split(textoInput, '\n'));
    var m := PyPrefix(ls, limite);
    var ps := PreviewOf(m);
    forall i | 0 <= i < |ps|
      ensures ps[i] == PreviewItem(i, ls[i])
      ensures ps[i].valido <==> ps[i].dados.Some?
    {
      assert m[i] == ls[i];
      PreviewItemNonBlank(i, ls[i]);
    }
  }

  /** A non-blank line is either accepted, with its record, or rejected,
      without one. */
  lemma PreviewItemNonBlank(i: nat, linha: string)
    requires linha != [] && Stripped(linha)
    ensures PreviewItem(i, linha).valido <==> PreviewItem(i, linha).dados.Some?
  {
    assert !IsSpace(linha[0]);
  }
}
