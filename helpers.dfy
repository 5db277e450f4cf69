/** String and history helpers (utils/helpers.py): the display-key mapping,
    file-name sanitising, text truncation, zero-padded group labels and the
    distinct-id count over the history. */
module Helpers {
  import opened Records
  import opened Text

  /** `formato_display` (utils/helpers.py:9-24): the student key a display
      choice shows. */
  function FormatoDisplay(formatoExibicao: string): (chave: string)
    ensures chave == "completo" || chave == "nome" || chave == "matricula"
    ensures chave == "completo" <==> formatoExibicao == "Matrícula e Nome"
    ensures chave == "nome" <==> formatoExibicao == "Apenas Nome"
  {
    if formatoExibicao == "Matrícula e Nome" then "completo"
    else if formatoExibicao == "Apenas Nome" then "nome"
    else "matricula"
  }

  // ---------------------------------------------------------------------
  // File names
  // ---------------------------------------------------------------------

  /** The characters of the class `[<>:"/\\|?*]`. */
  predicate Forbidden(c: char)
  {
    c == '<' || c == '>' || c == ':' || c == '"' || c == '/' || c == '\\' || c == '|' || c == '?' || c == '*'
  }

  predicate Clean(s: string)
  {
    forall i :: 0 <= i < |s| ==> !Forbidden(s[i])
  }

  /** `re.sub(r'[<>:"/\\|?*]', "", s)`: the other characters, in order. */
  function RemoveForbidden(s: string): (r: string)
    ensures Clean(r)
    ensures |r| <= |s|
    ensures forall c :: c in r ==> c in s
    ensures Clean(s) ==> r == s
  {
    if s == [] then []
    else
      var n := |s| - 1;
      var p := RemoveForbidden(s[..n]);
      assert s == s[..n] + [s[n]];
      if Forbidden(s[n]) then p else p + [s[n]]
  }

  /** One character survives exactly when it is not forbidden. */
  lemma RemoveForbiddenOne(c: char)
    ensures RemoveForbidden([c]) == if Forbidden(c) then [] else [c]
  {
    assert [c][..0] == [];
  }

  /** The substitution works character by character: it distributes over
      concatenation. */
  lemma {:induction false} RemoveForbiddenAppend(a: string, b: string)
    ensures RemoveForbidden(a + b) == RemoveForbidden(a) + RemoveForbidden(b)
  {
    if b == [] {
      assert a + b == a;
    } else {
      var n := |b| - 1;
      RemoveForbiddenAppend(a, b[..n]);
      assert (a + b)[..|a + b| - 1] == a + b[..n];
      assert (a + b)[|a + b| - 1] == b[n];
    }
  }

  /** `sanitize_filename` (utils/helpers.py:46-63). */
  function SanitizeFilename(filename: string): (r: string)
    ensures Clean(r)
    ensures |RemoveForbidden(filename)| <= 200 ==> r == RemoveForbidden(filename)
    ensures |RemoveForbidden(filename)| > 200 && '.' !in RemoveForbidden(filename) ==>
      r == RemoveForbidden(filename)[..200]
  {
    var f := RemoveForbidden(filename);
    if |f| > 200 then
      if '.' in f then
        var k := LastIndexOf(f, '.');
        var name, ext := f[..k], f[k + 1..];
        assert forall i :: 0 <= i < |ext| ==> ext[i] == f[k + 1 + i];
        PyPrefix(name, 195) + "." + ext
      else f[..200]
    else f
  }

  /** A long name with a dot keeps at most 195 characters before its last
      dot, the dot, and the whole extension; so it fits in 200 characters
      whenever the extension has at most 4. */
  lemma SanitizeLongWithDot(filename: string)
    requires var f := RemoveForbidden(filename); |f| > 200 && '.' in f
    ensures var f := RemoveForbidden(filename);
      var k := LastIndexOf(f, '.');
      var r := SanitizeFilename(filename);
      && r == f[..Min(k, 195)] + "." + f[k + 1..]
      && |r| <= 196 + |f[k + 1..]|
      && (|f[k + 1..]| <= 4 ==> |r| <= 200)
  {
    var f := RemoveForbidden(filename);
    var k := LastIndexOf(f, '.');
    var pre := PyPrefix(f[..k], 195);
    assert |pre| == Min(k, 195);
    assert pre == f[..Min(k, 195)];
    assert SanitizeFilename(filename) == pre + "." + f[k + 1..];
  }

  /** A clean name of at most 195 characters, a dot and a dot-free extension
      is left as it is. */
  lemma SanitizeKeepsShortStem(r: string, name: string, ext: string)
    requires Clean(r) && r == name + "." + ext
    requires |name| <= 195 && '.' !in ext
    ensures SanitizeFilename(r) == r
  {
    assert RemoveForbidden(r) == r;
    if |r| > 200 {
      assert r[|name|] == '.';
      assert '.' in r;
      LastIndexOfBefore(name, '.', ext);
      assert r[..|name|] == name && r[|name| + 1..] == ext;
      assert PyPrefix(name, 195) == name;
    }
  }

  /** A clean name of at most 200 characters is left as it is. */
  lemma SanitizeKeepsShort(r: string)
    requires Clean(r) && |r| <= 200
    ensures SanitizeFilename(r) == r
  {
    assert RemoveForbidden(r) == r;
  }

  /** Sanitising a sanitised name changes nothing. */
  lemma SanitizeIdempotent(filename: string)
    ensures SanitizeFilename(SanitizeFilename(filename)) == SanitizeFilename(filename)
  {
    var f := RemoveForbidden(filename);
    var r := SanitizeFilename(filename);
    if |f| > 200 && '.' in f {
      var k := LastIndexOf(f, '.');
      SanitizeLongWithDot(filename);
      SanitizeKeepsShortStem(r, f[..Min(k, 195)], f[k + 1..]);
    } else {
      assert |r| <= 200;
      SanitizeKeepsShort(r);
    }
  }

  // ---------------------------------------------------------------------
  // Text truncation
  // ---------------------------------------------------------------------

  /** `truncar_texto` (utils/helpers.py:138-152).  The cut uses Python's
      slice, so a bound below zero counts from the end of the text. */
  function TruncarTexto(texto: string, maxLen: int, sufixo: string): (r: string)
    ensures |texto| <= maxLen ==> r == texto
    ensures |texto| > maxLen && maxLen >= |sufixo| ==>
      |r| == maxLen && r == texto[..maxLen - |sufixo|] + sufixo
  {
    if |texto| <= maxLen then texto
    else PyPrefix(texto, maxLen - |sufixo|) + sufixo
  }

  /** With a bound that leaves room for the suffix, the result fits the
      bound, and truncating again changes nothing. */
  lemma TruncarIdempotent(texto: string, maxLen: int, sufixo: string)
    requires maxLen >= |sufixo|
    ensures |TruncarTexto(texto, maxLen, sufixo)| <= maxLen
    ensures TruncarTexto(TruncarTexto(texto, maxLen, sufixo), maxLen, sufixo) == TruncarTexto(texto, maxLen, sufixo)
  {
  }

  /** Below the suffix length the slice bound is negative, so it counts
      from the end: the text loses only its last `|sufixo| - maxLen`
      characters and the result outgrows the bound. */
  lemma TruncarShortBound(texto: string, maxLen: int, sufixo: string)
    requires maxLen < |sufixo| && |texto| > maxLen
    ensures var r := TruncarTexto(texto, maxLen, sufixo);
      && r == texto[..Max(0, |texto| + maxLen - |sufixo|)] + sufixo
      && |r| > maxLen
  {
  }

  // ---------------------------------------------------------------------
  // Group labels
  // ---------------------------------------------------------------------

  /** `s.zfill(w)`: zeros are inserted after a leading sign until the
      length is `w`; a string already that long is unchanged. */
  function ZFill(s: string, w: int): (r: string)
    ensures |r| == Max(|s|, w)
    ensures |s| >= w ==> r == s
  {
    if |s| >= w then s
    else if s != [] && (s[0] == '-' || s[0] == '+') then [s[0]] + Repeat('0', w - |s|) + s[1..]
    else Repeat('0', w - |s|) + s
  }

  /** `formatar_numero_grupo` (utils/helpers.py:87-99). */
  function FormatarNumeroGrupo(numero: int, total: int): (r: string)
    ensures |r| == 6 + Max(|IntToString(numero)|, |IntToString(total)|)
    ensures r[..6] == "Grupo "
  {
    "Grupo " + ZFill(IntToString(numero), |IntToString(total)|)
  }

  /** On an unsigned digit run, `zfill` only prepends zeros. */
  lemma ZFillDigits(s: string, w: int)
    requires s != [] && AllDigits(s)
    ensures AllDigits(ZFill(s, w)) && DigitsValue(ZFill(s, w)) == DigitsValue(s)
    ensures ZFill(s, w)[|ZFill(s, w)| - |s|..] == s
  {
    if |s| < w {
      assert IsDigit(s[0]);
      LeadingZerosValue(w - |s|, s);
    }
  }

  /** For a group number of zero or more, the label is "Grupo " and a digit
      run that reads back as the number: padding never truncates it. */
  lemma FormatarNumeroGrupoValue(numero: nat, total: int)
    ensures var d := FormatarNumeroGrupo(numero, total)[6..];
      && AllDigits(d) && DigitsValue(d) == numero
      && d[|d| - |NatToString(numero)|..] == NatToString(numero)
  {
    var s := NatToString(numero);
    var w := |IntToString(total)|;
    var z := ZFill(s, w);
    assert IntToString(numero) == s;
    assert FormatarNumeroGrupo(numero, total) == "Grupo " + z;
    NatToStringValue(numero);
    ZFillDigits(s, w);
  }

  // ---------------------------------------------------------------------
  // Distinct students in the history
  // ---------------------------------------------------------------------

  /** A history entry; `None` is an entry without the "estudantes" key. */
  datatype ItemHistorico = ItemHistorico(estudantes: Option<seq<Student>>)

  /** `item.get("estudantes", [])`. */
  function ListOf(item: ItemHistorico): seq<Student>
  {
    match item.estudantes
    case None => []
    case Some(es) => es
  }

  /** The non-empty ids of a student list, in order. */
  function IdsIn(es: seq<Student>): (ids: seq<string>)
    ensures |ids| <= |es|
    ensures forall x :: x in ids ==> x != ""
  {
    if es == [] then []
    else
      var n := |es| - 1;
      var m := Field(es[n].matricula);
      if m != "" then IdsIn(es[..n]) + [m] else IdsIn(es[..n])
  }

  /** The non-empty ids across the history, entry after entry. */
  function HistoryIds(h: seq<ItemHistorico>): seq<string>
  {
    if h == [] then [] else HistoryIds(h[..|h| - 1]) + IdsIn(ListOf(h[|h| - 1]))
  }

  /** The number of students the history lists, repeats included. */
  function TotalListed(h: seq<ItemHistorico>): nat
  {
    if h == [] then 0 else TotalListed(h[..|h| - 1]) + |ListOf(h[|h| - 1])|
  }

  function SetOf(s: seq<string>): set<string>
  {
    set x | x in s
  }

  /** An id is collected from a list exactly when it is non-empty and some
      student of the list has it. */
  lemma {:induction false} IdsInMember(es: seq<Student>, x: string)
    ensures x in IdsIn(es) <==> x != "" && exists e :: e in es && Field(e.matricula) == x
  {
    if es != [] {
      var n := |es| - 1;
      IdsInMember(es[..n], x);
      assert es == es[..n] + [es[n]];
      assert forall e :: e in es <==> e in es[..n] || e == es[n];
    }
  }

  /** Some student of some entry of `h` has id `x`. */
  ghost predicate Listed(h: seq<ItemHistorico>, x: string)
  {
    exists i, e :: 0 <= i < |h| && e in ListOf(h[i]) && Field(e.matricula) == x
  }

  /** A student is listed in `h` exactly when it is listed in all entries but
      the last, or in the last. */
  lemma ListedStep(h: seq<ItemHistorico>, x: string)
    requires h != []
    ensures Listed(h, x) <==>
      Listed(h[..|h| - 1], x) || exists e :: e in ListOf(h[|h| - 1]) && Field(e.matricula) == x
  {
    var n := |h| - 1;
    if Listed(h, x) {
      var i, e :| 0 <= i < |h| && e in ListOf(h[i]) && Field(e.matricula) == x;
      if i < n {
        assert h[..n][i] == h[i];
      }
    }
    if Listed(h[..n], x) {
      var i, e :| 0 <= i < n && e in ListOf(h[..n][i]) && Field(e.matricula) == x;
      assert h[..n][i] == h[i];
    }
  }

  /** An id is collected from the history exactly when it is non-empty and
      some student of some entry has it. */
  lemma {:induction false} HistoryIdsMember(h: seq<ItemHistorico>, x: string)
    ensures x in HistoryIds(h) <==>
      x != "" && exists i, e :: 0 <= i < |h| && e in ListOf(h[i]) && Field(e.matricula) == x
  {
    if h != [] {
      var n := |h| - 1;
      HistoryIdsMember(h[..n], x);
      IdsInMember(ListOf(h[n]), x);
      ListedStep(h, x);
      assert HistoryIds(h) == HistoryIds(h[..n]) + IdsIn(ListOf(h[n]));
    }
  }

  lemma SetOfAppend(a: seq<string>, b: seq<string>)
    ensures SetOf(a + b) == SetOf(a) + SetOf(b)
  {
  }

  lemma {:induction false} SetOfBound(s: seq<string>)
    ensures |SetOf(s)| <= |s|
  {
    if s != [] {
      var n := |s| - 1;
      SetOfBound(s[..n]);
      assert SetOf(s) == SetOf(s[..n]) + {s[n]};
    }
  }

  lemma {:induction false} HistoryIdsBound(h: seq<ItemHistorico>)
    ensures |HistoryIds(h)| <= TotalListed(h)
  {
    if h != [] {
      HistoryIdsBound(h[..|h| - 1]);
    }
  }

  /** The distinct count never exceeds the number of students listed. */
  lemma UniqueBounded(h: seq<ItemHistorico>)
    ensures |SetOf(HistoryIds(h))| <= TotalListed(h)
  {
    SetOfBound(HistoryIds(h));
    HistoryIdsBound(h);
  }

  /** `contar_estudantes_unicos` (utils/helpers.py:66-84). */
  method ContarEstudantesUnicos(historico: seq<ItemHistorico>) returns (n: nat)
    ensures n == |SetOf(HistoryIds(historico))|
  {
    var matriculasUnicas: set<string> := {};
    for i := 0 to |historico|
      invariant matriculasUnicas == SetOf(HistoryIds(historico[..i]))
    {
      assert historico[..i + 1][..i] == historico[..i];
      ghost var antes := matriculasUnicas;
      var estudantes := ListOf(historico[i]);
      for j := 0 to |estudantes|
        invariant matriculasUnicas == antes + SetOf(IdsIn(estudantes[..j]))
      {
        assert estudantes[..j + 1][..j] == estudantes[..j];
        var matricula := Field(estudantes[j].matricula);
        if matricula != "" {
          SetOfAppend(IdsIn(estudantes[..j]), [matricula]);
          matriculasUnicas := matriculasUnicas + {matricula};
        }
      }
      assert estudantes[..|estudantes|] == estudantes;
      assert historico[..i + 1][i] == historico[i];
      SetOfAppend(HistoryIds(historico[..i]), IdsIn(estudantes));
    }
    assert historico[..|historico|] == historico;
    n := |matriculasUnicas|;
  }
}
