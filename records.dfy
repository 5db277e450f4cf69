/** Student records and group lists shared by every component.

    In the source a student is a dictionary with the keys "matricula", "nome"
    and "completo"; any of them may be absent (records loaded from the history
    or built by hand lack "completo"), and every reader falls back to "" with
    `.get(key, "")`.  Each key is therefore an optional string here. */
module Records {

  datatype Option<T> = None | Some(value: T)

  datatype Student = Student(matricula: Option<string>, nome: Option<string>, completo: Option<string>)

  /** `estudante.get(key, "")`: a missing key reads as the empty string. */
  function Field(f: Option<string>): string
  {
    match f
    case None => ""
    case Some(v) => v
  }

  /** The record both input parsers build: "completo" is "<matricula>, <nome>". */
  function MakeStudent(matricula: string, nome: string): Student
  {
    Student(Some(matricula), Some(nome), Some(matricula + ", " + nome))
  }

  /** A record as the parsers produce it: all three keys present, id and name
      non-empty, and the display label consistent with them. */
  predicate WellFormed(s: Student)
  {
    && s.matricula.Some? && s.matricula.value != ""
    && s.nome.Some? && s.nome.value != ""
    && s.completo == Some(s.matricula.value + ", " + s.nome.value)
  }

  /** The students of a group list, group after group. */
  function Flatten<T>(gs: seq<seq<T>>): seq<T>
  {
    if gs == [] then [] else Flatten(gs[..|gs| - 1]) + gs[|gs| - 1]
  }

  lemma {:induction false} FlattenAppend<T>(a: seq<seq<T>>, b: seq<seq<T>>)
    ensures Flatten(a + b) == Flatten(a) + Flatten(b)
    decreases |b|
  {
    if b == [] {
      assert a + b == a;
    } else {
      var ab := a + b;
      assert ab[..|ab| - 1] == a + b[..|b| - 1];
      FlattenAppend(a, b[..|b| - 1]);
    }
  }

  lemma FlattenOne<T>(g: seq<T>)
    ensures Flatten([g]) == g
  {
    assert [g][..0] == [];
  }

  /** Group `i` occupies its own block of the flattened list. */
  lemma FlattenSplit<T>(gs: seq<seq<T>>, i: nat)
    requires i < |gs|
    ensures Flatten(gs) == Flatten(gs[..i]) + gs[i] + Flatten(gs[i + 1..])
  {
    var pg, q := gs[..i + 1], gs[i + 1..];
    assert gs == pg + q;
    assert pg[..i] == gs[..i];
    FlattenAppend(pg, q);
    assert Flatten(pg) == Flatten(gs[..i]) + gs[i];
  }

  /** Removing the group at `i` removes exactly its students from the multiset. */
  lemma FlattenRemove<T>(gs: seq<seq<T>>, i: nat)
    requires i < |gs|
    ensures multiset(Flatten(gs[..i] + gs[i + 1..])) + multiset(gs[i]) == multiset(Flatten(gs))
  {
    var p, g, q := gs[..i], gs[i], gs[i + 1..];
    FlattenSplit(gs, i);
    FlattenAppend(p, q);
    var a, b := Flatten(p), Flatten(q);
    assert multiset(a + g + b) == multiset(a) + multiset(g) + multiset(b);
    assert multiset(a + b) == multiset(a) + multiset(b);
  }

  /** Replacing the group at `k` by `v` swaps its students for those of `v`. */
  lemma FlattenUpdate<T>(gs: seq<seq<T>>, k: nat, v: seq<T>)
    requires k < |gs|
    ensures multiset(Flatten(gs[k := v])) + multiset(gs[k]) == multiset(Flatten(gs)) + multiset(v)
  {
    var hs := gs[k := v];
    assert hs[..k] == gs[..k] && hs[k + 1..] == gs[k + 1..];
    FlattenSplit(gs, k);
    FlattenSplit(hs, k);
    var a, b := Flatten(gs[..k]), Flatten(gs[k + 1..]);
    assert multiset(a + gs[k] + b) == multiset(a) + multiset(gs[k]) + multiset(b);
    assert multiset(a + v + b) == multiset(a) + multiset(v) + multiset(b);
  }
}
