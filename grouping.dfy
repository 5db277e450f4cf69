/** The group-formation engine of logic/group_formation.py: ordering the
    students by the chosen method, cutting the ordered list into chunks of the
    requested size, folding students left alone into other groups, and the
    summary statistics of a group list. */
module GroupFormation {
  import opened Records
  import opened Text

  const ALEATORIO: string := "Aleatório"
  const SEQUENCIAL: string := "Sequencial"
  const BALANCEADO: string := "Balanceado"

  // ---------------------------------------------------------------------
  // Ordering by id ("Balanceado" sorts by `x.get("matricula", "")`)
  // ---------------------------------------------------------------------

  function SortKey(s: Student): string
  {
    Field(s.matricula)
  }

  /** Python's `<=` on `str`: lexicographic by code point. */
  predicate KeyLe(a: string, b: string)
  {
    a == [] || (b != [] && (a[0] < b[0] || (a[0] == b[0] && KeyLe(a[1..], b[1..]))))
  }

  lemma {:induction false} KeyLeRefl(a: string)
    ensures KeyLe(a, a)
  {
    if a != [] {
      KeyLeRefl(a[1..]);
    }
  }

  lemma {:induction false} KeyLeTotal(a: string, b: string)
    ensures KeyLe(a, b) || KeyLe(b, a)
  {
    if a != [] && b != [] && a[0] == b[0] {
      KeyLeTotal(a[1..], b[1..]);
    }
  }

  lemma {:induction false} KeyLeTrans(a: string, b: string, c: string)
    requires KeyLe(a, b) && KeyLe(b, c)
    ensures KeyLe(a, c)
  {
    if a != [] && a[0] == b[0] && b[0] == c[0] {
      KeyLeTrans(a[1..], b[1..], c[1..]);
    }
  }

  /** Each student's id is at most the next one's. */
  predicate Sorted(s: seq<Student>)
  {
    forall i :: 0 < i < |s| ==> KeyLe(SortKey(s[i - 1]), SortKey(s[i]))
  }

  /** The students of `s` whose id is `k`, in their order in `s`. */
  function WithKey(s: seq<Student>, k: string): seq<Student>
  {
    if s == [] then [] else (if SortKey(s[0]) == k then [s[0]] else []) + WithKey(s[1..], k)
  }

  /** Puts `x` before the first student whose id is not smaller than its own. */
  function Insert(x: Student, r: seq<Student>): (o: seq<Student>)
    ensures |o| == |r| + 1
    ensures o[0] == x || (r != [] && o[0] == r[0])
  {
    if r == [] then [x]
    else if KeyLe(SortKey(x), SortKey(r[0])) then [x] + r
    else [r[0]] + Insert(x, r[1..])
  }

  /** Insertion adds exactly `x`. */
  lemma {:induction false} InsertPermutation(x: Student, r: seq<Student>)
    ensures multiset(Insert(x, r)) == multiset(r) + multiset{x}
  {
    if r != [] && !KeyLe(SortKey(x), SortKey(r[0])) {
      InsertPermutation(x, r[1..]);
      assert r == [r[0]] + r[1..];
    }
  }

  /** `list.sort(key=...)`: a stable sort by id (an insertion sort here). */
  function SortByKey(s: seq<Student>): (r: seq<Student>)
    ensures multiset(r) == multiset(s)
    ensures |r| == |s|
  {
    if s == [] then []
    else
      assert s == [s[0]] + s[1..];
      InsertPermutation(s[0], SortByKey(s[1..]));
      Insert(s[0], SortByKey(s[1..]))
  }

  lemma {:induction false} InsertSorted(x: Student, r: seq<Student>)
    requires Sorted(r)
    ensures Sorted(Insert(x, r))
  {
    if r != [] && !KeyLe(SortKey(x), SortKey(r[0])) {
      var tail := r[1..];
      assert Sorted(tail);
      InsertSorted(x, tail);
      KeyLeTotal(SortKey(x), SortKey(r[0]));
      var o := Insert(x, r);
      assert o == [r[0]] + Insert(x, tail);
    }
  }

  /** Insertion adds `x` to the students with its id and leaves the others'
      order alone. */
  lemma {:induction false} InsertWithKey(x: Student, r: seq<Student>, k: string)
    ensures WithKey(Insert(x, r), k) == (if SortKey(x) == k then [x] else []) + WithKey(r, k)
  {
    if r == [] {
    } else if KeyLe(SortKey(x), SortKey(r[0])) {
      assert ([x] + r)[1..] == r;
    } else {
      InsertWithKey(x, r[1..], k);
      KeyLeRefl(SortKey(x));
      InsertWithKeyPast(x, r, k);
    }
  }

  /** The step of `InsertWithKey` where `x` moves past the first student,
      whose id differs from its own. */
  lemma InsertWithKeyPast(x: Student, r: seq<Student>, k: string)
    requires r != [] && SortKey(x) != SortKey(r[0])
    requires Insert(x, r) == [r[0]] + Insert(x, r[1..])
    requires WithKey(Insert(x, r[1..]), k) == (if SortKey(x) == k then [x] else []) + WithKey(r[1..], k)
    ensures WithKey(Insert(x, r), k) == (if SortKey(x) == k then [x] else []) + WithKey(r, k)
  {
    var rest := Insert(x, r[1..]);
    var o := [r[0]] + rest;
    assert o[0] == r[0] && o[1..] == rest;
    if SortKey(x) == k {
      assert WithKey(o, k) == WithKey(rest, k);
      assert WithKey(r, k) == WithKey(r[1..], k);
    } else if SortKey(r[0]) == k {
      assert WithKey(o, k) == [r[0]] + WithKey(rest, k);
      assert WithKey(r, k) == [r[0]] + WithKey(r[1..], k);
    } else {
      assert WithKey(o, k) == WithKey(rest, k);
      assert WithKey(r, k) == WithKey(r[1..], k);
    }
  }

  /** The sort orders the students by id. */
  lemma {:induction false} SortByKeySorted(s: seq<Student>)
    ensures Sorted(SortByKey(s))
  {
    if s != [] {
      SortByKeySorted(s[1..]);
      InsertSorted(s[0], SortByKey(s[1..]));
    }
  }

  /** The sort is stable: students sharing an id keep their input order. */
  lemma {:induction false} SortByKeyStable(s: seq<Student>, k: string)
    ensures WithKey(SortByKey(s), k) == WithKey(s, k)
  {
    if s != [] {
      SortByKeyStable(s[1..], k);
      InsertWithKey(s[0], SortByKey(s[1..]), k);
    }
  }

  /** Sortedness of neighbours extends to every pair of positions. */
  lemma {:induction false} SortedPairs(s: seq<Student>, i: nat, j: nat)
    requires Sorted(s) && i <= j < |s|
    ensures KeyLe(SortKey(s[i]), SortKey(s[j]))
    decreases j - i
  {
    if i == j {
      KeyLeRefl(SortKey(s[i]));
    } else {
      SortedPairs(s, i, j - 1);
      KeyLeTrans(SortKey(s[i]), SortKey(s[j - 1]), SortKey(s[j]));
    }
  }

  // ---------------------------------------------------------------------
  // The "Balanceado" interleaving
  // ---------------------------------------------------------------------

  /** `[a[0], b[0], a[1], b[1], ...]` for two lists of equal length. */
  function Zip(a: seq<Student>, b: seq<Student>): (r: seq<Student>)
    requires |a| == |b|
    ensures |r| == 2 * |a|
  {
    if a == [] then []
    else
      var n := |a| - 1;
      Zip(a[..n], b[..n]) + [a[n], b[n]]
  }

  lemma {:induction false} ZipPermutation(a: seq<Student>, b: seq<Student>)
    requires |a| == |b|
    ensures multiset(Zip(a, b)) == multiset(a) + multiset(b)
  {
    if a != [] {
      var n := |a| - 1;
      ZipPermutation(a[..n], b[..n]);
      var z := Zip(a[..n], b[..n]);
      assert a == a[..n] + [a[n]];
      assert b == b[..n] + [b[n]];
      assert Zip(a, b) == z + [a[n], b[n]];
      assert multiset(Zip(a, b)) == multiset(z) + multiset([a[n], b[n]]);
    }
  }

  lemma {:induction false} ZipAt(a: seq<Student>, b: seq<Student>, j: nat)
    requires |a| == |b| && j < |a|
    ensures Zip(a, b)[2 * j] == a[j] && Zip(a, b)[2 * j + 1] == b[j]
  {
    var n := |a| - 1;
    if j < n {
      ZipAt(a[..n], b[..n], j);
    }
  }

  /** With m = n // 2: s[0], s[m], s[1], s[m+1], ..., s[m-1], s[2m-1], then
      s[n-1] when n is odd. */
  function Interleaved(s: seq<Student>): (r: seq<Student>)
    ensures |r| == |s|
  {
    var m := |s| / 2;
    Zip(s[..m], s[m..2 * m]) + Leftover(s)
  }

  /** The last student of an odd-sized list, which the pairing leaves over. */
  function Leftover(s: seq<Student>): (r: seq<Student>)
    ensures |r| == |s| % 2
  {
    if |s| % 2 != 0 then [s[|s| - 1]] else []
  }

  /** The two halves the pairing reads, followed by the leftover, make up the
      list. */
  lemma InterleavedParts(s: seq<Student>)
    ensures s == s[..|s| / 2] + s[|s| / 2..2 * (|s| / 2)] + Leftover(s)
  {
    var m := |s| / 2;
    ConcatSlices(s, m, 2 * m);
    ConcatSlices(s, 2 * m, |s|);
    assert s[2 * m..|s|] == Leftover(s);
    assert s[..|s|] == s;
  }

  /** The interleaving, position by position. */
  lemma InterleavedAt(s: seq<Student>, j: nat)
    requires j < |s| / 2
    ensures Interleaved(s)[2 * j] == s[j]
    ensures Interleaved(s)[2 * j + 1] == s[j + |s| / 2]
    ensures |s| % 2 != 0 ==> Interleaved(s)[|s| - 1] == s[|s| - 1]
  {
    var m := |s| / 2;
    ZipAt(s[..m], s[m..2 * m], j);
  }

  /** The interleaving is a permutation of its input. */
  lemma InterleavedPermutation(s: seq<Student>)
    ensures multiset(Interleaved(s)) == multiset(s)
  {
    var m := |s| / 2;
    var a, b := s[..m], s[m..2 * m];
    ZipPermutation(a, b);
    InterleavedParts(s);
    MultisetConcat(a, b, Leftover(s));
  }

  /** The interleaving loop of "Balanceado" (group_formation.py:43-54). */
  method Balance(s: seq<Student>) returns (r: seq<Student>)
    ensures r == Interleaved(s)
  {
    var meio := |s| / 2;
    r := [];
    var i := 0;
    while i < meio
      invariant 0 <= i <= meio
      invariant r == Zip(s[..i], s[meio..meio + i])
    {
      ghost var a, b := s[..i + 1], s[meio..meio + i + 1];
      assert a[..i] == s[..i] && b[..i] == s[meio..meio + i];
      assert Zip(a, b) == r + [s[i], s[meio + i]];
      r := r + [s[i]];
      if i + meio < |s| {
        r := r + [s[i + meio]];
      }
      i := i + 1;
    }
    if |s| % 2 != 0 {
      r := r + [s[|s| - 1]];
    }
  }

  /** The order the chosen method gives the students before chunking;
      `embaralhado` stands for the output of `random.shuffle`. Any method
      name other than the two recognised ones keeps the input order. */
  function Ordered(estudantes: seq<Student>, metodo: string, embaralhado: seq<Student>): seq<Student>
  {
    if metodo == ALEATORIO then embaralhado
    else if metodo == BALANCEADO then Interleaved(SortByKey(estudantes))
    else estudantes
  }

  /** Every method only reorders the students. */
  lemma OrderedPermutation(estudantes: seq<Student>, metodo: string, embaralhado: seq<Student>)
    requires metodo == ALEATORIO ==> multiset(embaralhado) == multiset(estudantes)
    ensures multiset(Ordered(estudantes, metodo, embaralhado)) == multiset(estudantes)
  {
    if metodo != ALEATORIO && metodo == BALANCEADO {
      InterleavedPermutation(SortByKey(estudantes));
    }
  }

  // ---------------------------------------------------------------------
  // Chunking
  // ---------------------------------------------------------------------

  /** `math.ceil(n / t)`. */
  function CeilDiv(n: nat, t: nat): nat
    requires t > 0
  {
    (n + t - 1) / t
  }

  lemma CeilDivBounds(n: nat, t: nat)
    requires t > 0
    ensures CeilDiv(n, t) * t >= n
    ensures CeilDiv(n, t) > 0 ==> (CeilDiv(n, t) - 1) * t < n
  {
    var k := CeilDiv(n, t);
    var r := (n + t - 1) % t;
    assert n + t - 1 == k * t + r;
    if k > 0 {
      assert (k - 1) * t == k * t - t;
    }
  }

  lemma MulMono(a: nat, b: nat, t: nat)
    requires a <= b
    ensures a * t <= b * t
  {
  }

  /** Group `i` holds positions `[i*t, min(i*t + t, n))` of the ordered list. */
  predicate ChunkAt(gs: seq<seq<Student>>, s: seq<Student>, t: nat, i: nat)
    requires i < |gs|
  {
    i * t < |s| && gs[i] == s[i * t .. Min(i * t + t, |s|)]
  }

  /** The groups are the ordered list cut into consecutive runs of `t`. */
  predicate IsChunking(gs: seq<seq<Student>>, s: seq<Student>, t: nat)
    requires t > 0
  {
    && |gs| == CeilDiv(|s|, t)
    && forall i :: 0 <= i < |gs| ==> ChunkAt(gs, s, t, i)
  }

  lemma {:induction false} ChunkingPrefix(gs: seq<seq<Student>>, s: seq<Student>, t: nat, i: nat)
    requires t > 0 && IsChunking(gs, s, t) && i <= |gs|
    ensures Flatten(gs[..i]) == s[..Min(i * t, |s|)]
  {
    if i > 0 {
      ChunkingPrefix(gs, s, t, i - 1);
      var a := (i - 1) * t;
      assert i * t == a + t;
      assert ChunkAt(gs, s, t, i - 1);
      assert gs[..i][..i - 1] == gs[..i - 1];
      ChunkStep(gs[..i], s, a, Min(a + t, |s|));
    }
  }

  /** One more group read: the prefix grows by that group's slice. */
  lemma ChunkStep(p: seq<seq<Student>>, s: seq<Student>, a: nat, b: nat)
    requires |p| > 0 && a <= b <= |s|
    requires Flatten(p[..|p| - 1]) == s[..a] && p[|p| - 1] == s[a..b]
    ensures Flatten(p) == s[..b]
  {
    FlattenSplit(p, |p| - 1);
    assert p[|p|..] == [];
    ConcatSlices(s, a, b);
  }

  /** What chunking promises: ceil(n/t) groups, all but the last of size t,
      the last holding the remainder, none empty, and the groups read in order
      give back the ordered list. */
  lemma ChunkingProperties(gs: seq<seq<Student>>, s: seq<Student>, t: nat)
    requires t > 0 && IsChunking(gs, s, t)
    ensures Flatten(gs) == s
    ensures |gs| == CeilDiv(|s|, t)
    ensures forall i :: 0 <= i < |gs| - 1 ==> |gs[i]| == t
    ensures |gs| > 0 ==> |gs[|gs| - 1]| == |s| - t * (|gs| - 1)
    ensures forall g :: g in gs ==> g != []
  {
    var k := |gs|;
    CeilDivBounds(|s|, t);
    ChunkingPrefix(gs, s, t, k);
    assert gs[..k] == gs;
    assert Min(k * t, |s|) == |s|;
    assert s[..|s|] == s;
    forall i | 0 <= i < k - 1
      ensures |gs[i]| == t
    {
      ChunkFull(gs, s, t, i);
    }
    if k > 0 {
      ChunkLast(gs, s, t);
    }
    forall g | g in gs
      ensures g != []
    {
      var i :| 0 <= i < k && gs[i] == g;
      assert ChunkAt(gs, s, t, i);
    }
  }

  /** A group before the last is full. */
  lemma ChunkFull(gs: seq<seq<Student>>, s: seq<Student>, t: nat, i: nat)
    requires t > 0 && IsChunking(gs, s, t) && i < |gs| - 1
    ensures |gs[i]| == t
  {
    var k := |gs|;
    assert ChunkAt(gs, s, t, i);
    CeilDivBounds(|s|, t);
    MulMono(i + 1, k - 1, t);
    assert (i + 1) * t == i * t + t;
    assert Min(i * t + t, |s|) == i * t + t;
  }

  /** The last group holds what the full ones leave. */
  lemma ChunkLast(gs: seq<seq<Student>>, s: seq<Student>, t: nat)
    requires t > 0 && IsChunking(gs, s, t) && |gs| > 0
    ensures |gs[|gs| - 1]| == |s| - t * (|gs| - 1)
  {
    var k := |gs|;
    var a := (k - 1) * t;
    assert ChunkAt(gs, s, t, k - 1);
    CeilDivBounds(|s|, t);
    assert k * t == a + t;
    assert Min(a + t, |s|) == |s|;
    assert t * (k - 1) == a;
  }

  /** The chunking loop of `formar_grupos` (group_formation.py:58-66). */
  method Chunk(s: seq<Student>, tamanhoGrupo: nat) returns (grupos: seq<seq<Student>>)
    requires tamanhoGrupo > 0
    ensures IsChunking(grupos, s, tamanhoGrupo)
  {
    var t := tamanhoGrupo;
    var numGrupos := CeilDiv(|s|, t);
    CeilDivBounds(|s|, t);
    grupos := [];
    var i := 0;
    while i < numGrupos
      invariant 0 <= i <= numGrupos
      invariant |grupos| == i
      invariant forall j :: 0 <= j < i ==> j * t < |s| && grupos[j] == s[j * t .. Min(j * t + t, |s|)]
    {
      MulMono(i, numGrupos - 1, t);
      var inicio := i * t;
      var fim := Min(inicio + t, |s|);
      grupos := grupos + [s[inicio..fim]];
      i := i + 1;
    }
    forall j | 0 <= j < |grupos|
      ensures ChunkAt(grupos, s, t, j)
    {
    }
  }

  // ---------------------------------------------------------------------
  // Redistribution of students left alone
  // ---------------------------------------------------------------------

  /** `min(grupos, key=len)`: the first group of smallest size. */
  function FirstMinIndex(gs: seq<seq<Student>>): (k: nat)
    requires |gs| > 0
    ensures k < |gs|
    ensures forall j :: 0 <= j < |gs| ==> |gs[k]| <= |gs[j]|
    ensures forall j :: 0 <= j < k ==> |gs[j]| > |gs[k]|
  {
    if |gs| == 1 then 0
    else
      var k := FirstMinIndex(gs[..|gs| - 1]);
      if |gs[|gs| - 1]| < |gs[k]| then |gs| - 1 else k
  }

  function RemoveAt(gs: seq<seq<Student>>, i: nat): (r: seq<seq<Student>>)
    requires i < |gs|
    ensures |r| == |gs| - 1
  {
    gs[..i] + gs[i + 1..]
  }

  /** One iteration of the backward scan at index `i`: a group of size 1 is
      popped and its student goes into the first smallest remaining group
      when larger groups are allowed or that group is below the target
      size, into a new one-student group appended at the end otherwise, and
      back into a re-created group when no other group is left. */
  function Step(gs: seq<seq<Student>>, i: nat, t: int, permitirMaiores: bool): (r: seq<seq<Student>>)
    requires i < |gs|
    ensures |gs| - 1 <= |r| <= |gs|
  {
    if |gs[i]| != 1 then gs
    else
      var aluno := gs[i][0];
      var resto := RemoveAt(gs, i);
      if resto == [] then [[aluno]]
      else
        var k := FirstMinIndex(resto);
        if permitirMaiores || |resto[k]| < t then resto[k := resto[k] + [aluno]]
        else resto + [[aluno]]
  }

  /** The scan from index `i` down to 0. */
  function RedistributeFrom(gs: seq<seq<Student>>, i: int, t: int, permitirMaiores: bool): seq<seq<Student>>
    requires -1 <= i < |gs|
    decreases i + 1
  {
    if i < 0 then gs else RedistributeFrom(Step(gs, i, t, permitirMaiores), i - 1, t, permitirMaiores)
  }

  /** The result of `redistribuir_solitarios_func`. */
  function Redistributed(gs: seq<seq<Student>>, t: int, permitirMaiores: bool): seq<seq<Student>>
  {
    RedistributeFrom(gs, |gs| - 1, t, permitirMaiores)
  }

  /** `redistribuir_solitarios_func` (group_formation.py:75-110): a scan with a
      strictly decreasing index over a list that is popped and appended to. */
  method RedistribuirSolitarios(grupos: seq<seq<Student>>, tamanhoGrupo: int, permitirMaiores: bool)
    returns (r: seq<seq<Student>>)
    ensures r == Redistributed(grupos, tamanhoGrupo, permitirMaiores)
  {
    r := grupos;
    if r == [] {
      return;
    }
    var i := |r| - 1;
    while i >= 0
      invariant -1 <= i < |r|
      invariant RedistributeFrom(r, i, tamanhoGrupo, permitirMaiores) == Redistributed(grupos, tamanhoGrupo, permitirMaiores)
      decreases i + 1
    {
      ghost var antes := r;
      if |r[i]| == 1 {
        var alunoSozinho := r[i][0];
        r := r[..i] + r[i + 1..];
        if r != [] {
          var menor := FirstMinIndex(r);
          if permitirMaiores || |r[menor]| < tamanhoGrupo {
            r := r[menor := r[menor] + [alunoSozinho]];
          } else {
            r := r + [[alunoSozinho]];
          }
        } else {
          r := r + [[alunoSozinho]];
        }
      }
      assert r == Step(antes, i, tamanhoGrupo, permitirMaiores);
      i := i - 1;
    }
  }

  predicate NoEmptyGroup(gs: seq<seq<Student>>)
  {
    forall g :: g in gs ==> g != []
  }

  /** Adding a student to group `k` adds exactly that student. */
  lemma MergeConserves(gs: seq<seq<Student>>, k: nat, aluno: Student)
    requires k < |gs|
    ensures multiset(Flatten(gs[k := gs[k] + [aluno]])) == multiset(Flatten(gs)) + multiset{aluno}
  {
    var v := gs[k] + [aluno];
    var p, q := gs[..k], gs[k + 1..];
    assert gs == p + [gs[k]] + q;
    assert gs[k := v] == p + [v] + q;
    FlattenAppend(p + [gs[k]], q);
    FlattenAppend(p, [gs[k]]);
    FlattenAppend(p + [v], q);
    FlattenAppend(p, [v]);
    FlattenOne(gs[k]);
    FlattenOne(v);
    assert Flatten(gs[k := v]) == Flatten(p) + gs[k] + [aluno] + Flatten(q);
    assert Flatten(gs) == Flatten(p) + gs[k] + Flatten(q);
  }

  /** Appending a one-student group adds exactly that student. */
  lemma AppendConserves(gs: seq<seq<Student>>, aluno: Student)
    ensures multiset(Flatten(gs + [[aluno]])) == multiset(Flatten(gs)) + multiset{aluno}
  {
    FlattenAppend(gs, [[aluno]]);
    FlattenOne([aluno]);
  }

  lemma StepConserves(gs: seq<seq<Student>>, i: nat, t: int, permitirMaiores: bool)
    requires i < |gs|
    ensures multiset(Flatten(Step(gs, i, t, permitirMaiores))) == multiset(Flatten(gs))
  {
    if |gs[i]| == 1 {
      var aluno := gs[i][0];
      var resto := RemoveAt(gs, i);
      assert gs[i] == [aluno];
      FlattenRemove(gs, i);
      if resto == [] {
        FlattenOne([aluno]);
      } else {
        var k := FirstMinIndex(resto);
        if permitirMaiores || |resto[k]| < t {
          MergeConserves(resto, k, aluno);
        } else {
          AppendConserves(resto, aluno);
        }
      }
    }
  }

  lemma StepNoEmpty(gs: seq<seq<Student>>, i: nat, t: int, permitirMaiores: bool)
    requires i < |gs|
    requires NoEmptyGroup(gs)
    ensures NoEmptyGroup(Step(gs, i, t, permitirMaiores))
  {
    if |gs[i]| == 1 {
      var aluno := gs[i][0];
      var resto := RemoveAt(gs, i);
      assert forall g :: g in resto ==> g in gs;
      if resto != [] {
        var k := FirstMinIndex(resto);
        var r := Step(gs, i, t, permitirMaiores);
        if permitirMaiores || |resto[k]| < t {
          assert r == resto[k := resto[k] + [aluno]];
          forall g | g in r ensures g != [] {
            var j :| 0 <= j < |r| && r[j] == g;
            if j != k {
              assert r[j] == resto[j];
              assert resto[j] in resto;
            }
          }
        } else {
          assert r == resto + [[aluno]];
          forall g | g in r ensures g != [] {
            var j :| 0 <= j < |r| && r[j] == g;
            if j < |resto| {
              assert r[j] == resto[j];
              assert resto[j] in resto;
            } else {
              assert r[j] == [aluno];
            }
          }
        }
      }
    }
  }

  /** The scan keeps every student exactly once and creates no empty group. */
  lemma {:induction false} RedistributeFromConserves(gs: seq<seq<Student>>, i: int, t: int, permitirMaiores: bool)
    requires -1 <= i < |gs|
    ensures multiset(Flatten(RedistributeFrom(gs, i, t, permitirMaiores))) == multiset(Flatten(gs))
    ensures NoEmptyGroup(gs) ==> NoEmptyGroup(RedistributeFrom(gs, i, t, permitirMaiores))
    ensures |RedistributeFrom(gs, i, t, permitirMaiores)| <= |gs|
    decreases i + 1
  {
    if i >= 0 {
      StepConserves(gs, i, t, permitirMaiores);
      if NoEmptyGroup(gs) {
        StepNoEmpty(gs, i, t, permitirMaiores);
      }
      RedistributeFromConserves(Step(gs, i, t, permitirMaiores), i - 1, t, permitirMaiores);
    }
  }

  /** `redistribuir_solitarios_func` conserves the multiset of students, never
      leaves a group empty, and never increases the number of groups. */
  lemma RedistributedConserves(gs: seq<seq<Student>>, t: int, permitirMaiores: bool)
    ensures multiset(Flatten(Redistributed(gs, t, permitirMaiores))) == multiset(Flatten(gs))
    ensures NoEmptyGroup(gs) ==> NoEmptyGroup(Redistributed(gs, t, permitirMaiores))
    ensures |Redistributed(gs, t, permitirMaiores)| <= |gs|
  {
    RedistributeFromConserves(gs, |gs| - 1, t, permitirMaiores);
  }

  /** Where a popped student goes: into the first smallest of the remaining
      groups, which is then the only group that changes, unless larger groups
      are disallowed and every remaining group already has `t` students or
      more, and only then, in which case a new one-student group is appended. */
  lemma StepPlacement(gs: seq<seq<Student>>, i: nat, t: int, permitirMaiores: bool)
    requires i < |gs| && |gs[i]| == 1 && |gs| > 1
    ensures var resto := RemoveAt(gs, i);
            var k := FirstMinIndex(resto);
            var r := Step(gs, i, t, permitirMaiores);
            && (forall j :: 0 <= j < |resto| ==> |resto[k]| <= |resto[j]|)
            && (forall j :: 0 <= j < k ==> |resto[j]| > |resto[k]|)
            && ((permitirMaiores || (exists j :: 0 <= j < |resto| && |resto[j]| < t))
                  ==> r == resto[k := resto[k] + [gs[i][0]]])
            && ((!permitirMaiores && (forall j :: 0 <= j < |resto| ==> |resto[j]| >= t))
                  ==> r == resto + [[gs[i][0]]])
  {
  }

  /** With no other group left, the single one-student group is re-created:
      the list comes back unchanged. */
  lemma StepLastGroup(gs: seq<seq<Student>>, t: int, permitirMaiores: bool)
    requires |gs| == 1 && |gs[0]| == 1
    ensures Step(gs, 0, t, permitirMaiores) == gs
  {
    assert gs[0] == [gs[0][0]];
  }

  /** One step of the scan at `i`, with larger groups allowed, leaves no
      one-student group at or after `i`. */
  lemma StepNoSingleton(gs: seq<seq<Student>>, i: nat, t: int)
    requires i < |gs|
    requires NoEmptyGroup(gs)
    requires forall j :: i < j < |gs| ==> |gs[j]| != 1
    requires |Flatten(gs)| >= 2
    ensures forall j :: i <= j < |Step(gs, i, t, true)| ==> |Step(gs, i, t, true)[j]| != 1
  {
    var r := Step(gs, i, t, true);
    if |gs[i]| == 1 {
      var resto := RemoveAt(gs, i);
      if resto == [] {
        assert false;
      }
      var k := FirstMinIndex(resto);
      assert resto[k] in gs;
      forall j | i <= j < |r|
        ensures |r[j]| != 1
      {
        if j != k {
          assert r[j] == gs[j + 1];
        }
      }
    }
  }

  /** The number of students is unchanged by a step. */
  lemma StepCount(gs: seq<seq<Student>>, i: nat, t: int, permitirMaiores: bool)
    requires i < |gs|
    ensures |Flatten(Step(gs, i, t, permitirMaiores))| == |Flatten(gs)|
  {
    StepConserves(gs, i, t, permitirMaiores);
    assert |multiset(Flatten(Step(gs, i, t, permitirMaiores)))| == |multiset(Flatten(gs))|;
  }

  /** With larger groups allowed, a scan whose already-scanned part holds no
      one-student group leaves none at all, provided there are two students. */
  lemma {:induction false} RedistributeFromNoSingleton(gs: seq<seq<Student>>, i: int, t: int)
    requires -1 <= i < |gs|
    requires NoEmptyGroup(gs)
    requires forall j :: i < j < |gs| ==> |gs[j]| != 1
    requires |Flatten(gs)| >= 2
    ensures forall g :: g in RedistributeFrom(gs, i, t, true) ==> |g| != 1
    decreases i + 1
  {
    if i < 0 {
      assert forall g :: g in gs ==> exists j :: 0 <= j < |gs| && gs[j] == g;
    } else {
      var r := Step(gs, i, t, true);
      StepCount(gs, i, t, true);
      StepNoEmpty(gs, i, t, true);
      StepNoSingleton(gs, i, t);
      RedistributeFromNoSingleton(r, i - 1, t);
    }
  }

  /** With larger groups allowed, redistribution of non-empty groups holding at
      least two students leaves no group of size 1. */
  lemma RedistributedNoSingleton(gs: seq<seq<Student>>, t: int)
    requires NoEmptyGroup(gs)
    requires |Flatten(gs)| >= 2
    ensures forall g :: g in Redistributed(gs, t, true) ==> |g| != 1
  {
    RedistributeFromNoSingleton(gs, |gs| - 1, t);
  }

  predicate AtMost(gs: seq<seq<Student>>, t: int)
  {
    forall g :: g in gs ==> |g| <= t
  }

  /** Without larger groups, no step lets a group outgrow the target size. */
  lemma {:induction false} RedistributeFromCapacity(gs: seq<seq<Student>>, i: int, t: int)
    requires -1 <= i < |gs|
    requires t >= 1 && AtMost(gs, t)
    ensures AtMost(RedistributeFrom(gs, i, t, false), t)
    decreases i + 1
  {
    if i >= 0 {
      var r := Step(gs, i, t, false);
      if |gs[i]| == 1 {
        var resto := RemoveAt(gs, i);
        assert forall g :: g in resto ==> g in gs;
        if resto != [] {
          var k := FirstMinIndex(resto);
          if |resto[k]| < t {
            assert forall g :: g in r ==> g in resto || g == resto[k] + [gs[i][0]];
          } else {
            assert forall g :: g in r ==> g in resto || g == [gs[i][0]];
          }
        }
      }
      assert AtMost(r, t);
      RedistributeFromCapacity(r, i - 1, t);
    }
  }

  /** Without larger groups allowed, no group ends above the target size. */
  lemma RedistributedCapacity(gs: seq<seq<Student>>, t: int)
    requires t >= 1 && AtMost(gs, t)
    ensures AtMost(Redistributed(gs, t, false), t)
  {
    RedistributeFromCapacity(gs, |gs| - 1, t);
  }

  // ---------------------------------------------------------------------
  // formar_grupos
  // ---------------------------------------------------------------------

  /** `formar_grupos` (group_formation.py:10-72). `embaralhado` is the order
      `random.shuffle` produced for the "Aleatório" method. */
  method FormarGrupos(estudantes: seq<Student>, tamanhoGrupo: nat, metodo: string,
                      redistribuirSolitarios: bool, permitirMaiores: bool,
                      embaralhado: seq<Student>)
    returns (grupos: seq<seq<Student>>)
    requires tamanhoGrupo >= 1
    requires metodo == ALEATORIO ==> multiset(embaralhado) == multiset(estudantes)
    ensures estudantes == [] ==> grupos == []
    ensures multiset(Flatten(grupos)) == multiset(estudantes)
    ensures NoEmptyGroup(grupos)
    ensures !redistribuirSolitarios ==>
              IsChunking(grupos, Ordered(estudantes, metodo, embaralhado), tamanhoGrupo)
    ensures redistribuirSolitarios ==>
              exists c :: IsChunking(c, Ordered(estudantes, metodo, embaralhado), tamanhoGrupo)
                          && grupos == Redistributed(c, tamanhoGrupo, permitirMaiores)
    ensures redistribuirSolitarios && permitirMaiores && |estudantes| >= 2 ==>
              forall g :: g in grupos ==> |g| >= 2
    ensures !redistribuirSolitarios && metodo != ALEATORIO && metodo != BALANCEADO ==>
              Flatten(grupos) == estudantes
  {
    if estudantes == [] {
      OrderedPermutation(estudantes, metodo, embaralhado);
      assert |multiset(Ordered(estudantes, metodo, embaralhado))| == 0;
      assert IsChunking([], Ordered(estudantes, metodo, embaralhado), tamanhoGrupo);
      assert Redistributed([], tamanhoGrupo, permitirMaiores) == [];
      return [];
    }
    var copia := estudantes;
    if metodo == ALEATORIO {
      copia := embaralhado;
    } else if metodo == BALANCEADO {
      copia := SortByKey(copia);
      copia := Balance(copia);
    }
    assert copia == Ordered(estudantes, metodo, embaralhado);
    grupos := Chunk(copia, tamanhoGrupo);
    ghost var chunks := grupos;
    if redistribuirSolitarios {
      grupos := RedistribuirSolitarios(grupos, tamanhoGrupo, permitirMaiores);
    }
    FormedGroups(estudantes, tamanhoGrupo, metodo, redistribuirSolitarios, permitirMaiores,
                 embaralhado, chunks, grupos);
  }

  /** What the groups `formar_grupos` returns keep from the chunks they were
      cut into, with or without the redistribution pass. */
  lemma FormedGroups(estudantes: seq<Student>, t: nat, metodo: string,
                     redistribuirSolitarios: bool, permitirMaiores: bool,
                     embaralhado: seq<Student>, chunks: seq<seq<Student>>, grupos: seq<seq<Student>>)
    requires t >= 1
    requires metodo == ALEATORIO ==> multiset(embaralhado) == multiset(estudantes)
    requires IsChunking(chunks, Ordered(estudantes, metodo, embaralhado), t)
    requires grupos == if redistribuirSolitarios then Redistributed(chunks, t, permitirMaiores) else chunks
    ensures multiset(Flatten(grupos)) == multiset(estudantes)
    ensures NoEmptyGroup(grupos)
    ensures redistribuirSolitarios && permitirMaiores && |estudantes| >= 2 ==>
              forall g :: g in grupos ==> |g| >= 2
    ensures !redistribuirSolitarios && metodo != ALEATORIO && metodo != BALANCEADO ==>
              Flatten(grupos) == estudantes
  {
    OrderedPermutation(estudantes, metodo, embaralhado);
    ChunkingProperties(chunks, Ordered(estudantes, metodo, embaralhado), t);
    if redistribuirSolitarios {
      RedistributedConserves(chunks, t, permitirMaiores);
      if permitirMaiores && |estudantes| >= 2 {
        assert |multiset(Flatten(chunks))| == |multiset(estudantes)|;
        RedistributedNoSingleton(chunks, t);
      }
    }
  }

  // ---------------------------------------------------------------------
  // sortear_grupo_ao_vivo
  // ---------------------------------------------------------------------

  datatype GrupoAnimacao = GrupoAnimacao(numero: nat, estudantes: seq<Student>, revelado: bool)

  function Members(gs: seq<GrupoAnimacao>): (r: seq<seq<Student>>)
    ensures |r| == |gs|
  {
    seq(|gs|, i requires 0 <= i < |gs| => gs[i].estudantes)
  }

  /** `sortear_grupo_ao_vivo` (group_formation.py:146-179): the shuffled list
      `embaralhado` cut into chunks, numbered from 1 and not yet revealed. */
  method SortearGrupoAoVivo(estudantes: seq<Student>, tamanhoGrupo: nat, embaralhado: seq<Student>)
    returns (grupos: seq<GrupoAnimacao>)
    requires tamanhoGrupo >= 1
    requires multiset(embaralhado) == multiset(estudantes)
    ensures IsChunking(Members(grupos), embaralhado, tamanhoGrupo)
    ensures multiset(Flatten(Members(grupos))) == multiset(estudantes)
    ensures forall i :: 0 <= i < |grupos| ==> grupos[i].numero == i + 1 && !grupos[i].revelado
  {
    var t := tamanhoGrupo;
    var copia := embaralhado;
    var numGrupos := CeilDiv(|copia|, t);
    CeilDivBounds(|copia|, t);
    grupos := [];
    var i := 0;
    while i < numGrupos
      invariant 0 <= i <= numGrupos
      invariant |grupos| == i
      invariant forall j :: 0 <= j < i ==>
                  && j * t < |copia|
                  && grupos[j] == GrupoAnimacao(j + 1, copia[j * t .. Min(j * t + t, |copia|)], false)
    {
      MulMono(i, numGrupos - 1, t);
      var inicio := i * t;
      var fim := Min(inicio + t, |copia|);
      grupos := grupos + [GrupoAnimacao(i + 1, copia[inicio..fim], false)];
      i := i + 1;
    }
    ChunkingProperties(Members(grupos), copia, t);
  }

  // ---------------------------------------------------------------------
  // calcular_estatisticas
  // ---------------------------------------------------------------------

  datatype Estatisticas = Estatisticas(
    totalGrupos: nat,
    totalEstudantes: nat,
    menorGrupo: nat,
    maiorGrupo: nat,
    media: real,
    tamanhos: seq<nat>)

  function Sizes(gs: seq<seq<Student>>): (r: seq<nat>)
    ensures |r| == |gs|
  {
    seq(|gs|, i requires 0 <= i < |gs| => |gs[i]|)
  }

  function Sum(s: seq<nat>): nat
  {
    if s == [] then 0 else Sum(s[..|s| - 1]) + s[|s| - 1]
  }

  function MinOf(s: seq<nat>): (m: nat)
    requires s != []
    ensures m in s
    ensures forall i :: 0 <= i < |s| ==> m <= s[i]
  {
    if |s| == 1 then s[0]
    else
      var init := s[..|s| - 1];
      var m := MinOf(init);
      assert s == init + [s[|s| - 1]];
      if s[|s| - 1] < m then s[|s| - 1] else m
  }

  function MaxOf(s: seq<nat>): (m: nat)
    requires s != []
    ensures m in s
    ensures forall i :: 0 <= i < |s| ==> s[i] <= m
  {
    if |s| == 1 then s[0]
    else
      var init := s[..|s| - 1];
      var m := MaxOf(init);
      assert s == init + [s[|s| - 1]];
      if s[|s| - 1] > m then s[|s| - 1] else m
  }

  /** The sum of the group sizes is the number of students in the list. */
  lemma {:induction false} SumSizes(gs: seq<seq<Student>>)
    ensures Sum(Sizes(gs)) == |Flatten(gs)|
  {
    if gs != [] {
      var init := gs[..|gs| - 1];
      SumSizes(init);
      assert Sizes(gs)[..|gs| - 1] == Sizes(init);
    }
  }

  /** `total / n` as a real number (Python's true division). */
  function Mean(total: nat, n: nat): (m: real)
    requires n > 0
    ensures m * (n as real) == total as real
  {
    (total as real) / (n as real)
  }

  /** `calcular_estatisticas` (group_formation.py:113-143). */
  function CalcularEstatisticas(grupos: seq<seq<Student>>): (e: Estatisticas)
    ensures grupos == [] ==> e == Estatisticas(0, 0, 0, 0, 0.0, [])
    ensures e.totalGrupos == |grupos|
    ensures |e.tamanhos| == |grupos|
    ensures forall i :: 0 <= i < |grupos| ==> e.tamanhos[i] == |grupos[i]|
    ensures e.totalEstudantes == |Flatten(grupos)|
    ensures grupos != [] ==>
              && e.menorGrupo in e.tamanhos && e.maiorGrupo in e.tamanhos
              && (forall i :: 0 <= i < |grupos| ==> e.menorGrupo <= |grupos[i]| <= e.maiorGrupo)
    ensures grupos != [] ==> e.totalGrupos > 0 && e.media == Mean(e.totalEstudantes, e.totalGrupos)
  {
    if grupos == [] then Estatisticas(0, 0, 0, 0, 0.0, [])
    else
      var tamanhos := Sizes(grupos);
      var total := Sum(tamanhos);
      SumSizes(grupos);
      Estatisticas(|grupos|, total, MinOf(tamanhos), MaxOf(tamanhos), Mean(total, |grupos|), tamanhos)
  }
}
