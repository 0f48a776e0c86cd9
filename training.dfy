/** `TrainingService` over the `students` table. The table is the sequence of
    its rows in query order; the face-embedding extractor's answer and the
    averaging-and-normalising step (`combine`) are parameters. */
module Training {
  import opened Common

  datatype Student<E> = Student(id: nat, name: string, embedding: Option<E>)

  /** A row of `load_all_student_embeddings`. */
  datatype Entry<E> = Entry(id: nat, name: string, embedding: E)

  /** A row of `get_all_students_list`. */
  datatype Listing = Listing(id: nat, name: string)

  /** The first row with that name, as `.filter(Student.name == n).first()`. */
  function FindByName<E>(rows: seq<Student<E>>, name: string): (r: Option<nat>)
    ensures r.Some? ==>
      && r.value < |rows| && rows[r.value].name == name
      && forall j :: 0 <= j < r.value ==> rows[j].name != name
    ensures r.None? ==> forall j :: 0 <= j < |rows| ==> rows[j].name != name
  {
    if rows == [] then None
    else if rows[0].name == name then Some(0)
    else
      var r := FindByName(rows[1..], name);
      if r.Some? then Some(r.value + 1) else None
  }

  /** The largest id in the table, 0 when it is empty. */
  function MaxId<E>(rows: seq<Student<E>>): (m: nat)
    ensures forall j :: 0 <= j < |rows| ==> rows[j].id <= m
    ensures rows != [] ==> exists j :: 0 <= j < |rows| && rows[j].id == m
    ensures rows == [] ==> m == 0
  {
    if rows == [] then 0
    else
      var m := MaxId(rows[1..]);
      if rows[0].id >= m then rows[0].id
      else
        assert rows[1..][0] == rows[1];
        m
  }

  /** The row id SQLite gives an insert without an explicit id. */
  function NextId<E>(rows: seq<Student<E>>): (id: nat)
    ensures id >= 1
    ensures forall j :: 0 <= j < |rows| ==> rows[j].id < id
  {
    MaxId(rows) + 1
  }

  ghost predicate UniqueIds<E>(rows: seq<Student<E>>)
  {
    forall i, j :: 0 <= i < j < |rows| ==> rows[i].id != rows[j].id
  }

  ghost predicate UniqueNames<E>(rows: seq<Student<E>>)
  {
    forall i, j :: 0 <= i < j < |rows| ==> rows[i].name != rows[j].name
  }

  class StudentTable<E> {
    var rows: seq<Student<E>>

    /** Ids are primary keys and names carry a unique index. */
    ghost predicate Valid()
      reads this
    {
      UniqueIds(rows) && UniqueNames(rows)
    }

    constructor (initial: seq<Student<E>>)
      requires UniqueIds(initial) && UniqueNames(initial)
      ensures Valid() && rows == initial
    {
      rows := initial;
    }

    /** `generate_and_store_embedding`. With no extracted embedding nothing
        changes. A known name gets `combine(old, new)` when it already has an
        embedding and the new one otherwise; an unknown name is inserted. */
    method GenerateAndStore(name: string, extracted: Option<E>, combine: (E, E) -> E)
      returns (stored: Option<Student<E>>)
      requires Valid()
      modifies this
      ensures Valid()
      ensures extracted.None? ==> stored.None? && rows == old(rows)
      ensures extracted.Some? && FindByName(old(rows), name).Some? ==>
        var i := FindByName(old(rows), name).value;
        var before := old(rows)[i];
        && rows == old(rows)[i := Student(before.id, name, Some(
             if before.embedding.Some? then combine(before.embedding.value, extracted.value)
             else extracted.value))]
        && stored == Some(rows[i])
      ensures extracted.Some? && FindByName(old(rows), name).None? ==>
        && rows == old(rows) + [Student(NextId(old(rows)), name, extracted)]
        && stored == Some(rows[|rows| - 1])
      // afterwards the name has exactly one row, holding an embedding
      ensures extracted.Some? ==>
        && FindByName(rows, name).Some?
        && rows[FindByName(rows, name).value].embedding.Some?
        && forall j :: 0 <= j < |rows| && rows[j].name == name ==> j == FindByName(rows, name).value
    {
      if extracted.None? {
        return None;
      }
      var embedding := extracted.value;
      var found := FindByName(rows, name);
      if found.Some? {
        var i := found.value;
        var row := rows[i];
        var updated := if row.embedding.Some? then combine(row.embedding.value, embedding) else embedding;
        rows := rows[i := row.(embedding := Some(updated))];
        stored := Some(rows[i]);
      } else {
        var row := Student(NextId(rows), name, Some(embedding));
        rows := rows + [row];
        stored := Some(row);
      }
    }
  }

  function EntryOf<E>(row: Student<E>): Entry<E>
    requires row.embedding.Some?
  {
    Entry(row.id, row.name, row.embedding.value)
  }

  /** `load_all_student_embeddings`: the rows that have an embedding, in order. */
  function LoadAll<E>(rows: seq<Student<E>>): (r: seq<Entry<E>>)
    ensures |r| <= |rows|
  {
    if rows == [] then []
    else (if rows[0].embedding.Some? then [EntryOf(rows[0])] else []) + LoadAll(rows[1..])
  }

  /** Exactly the rows with an embedding are loaded, each as {id, name, embedding}. */
  lemma {:induction false} LoadAllContents<E>(rows: seq<Student<E>>)
    ensures forall k :: 0 <= k < |LoadAll(rows)| ==>
      exists j :: 0 <= j < |rows| && rows[j].embedding.Some? && LoadAll(rows)[k] == EntryOf(rows[j])
    ensures forall j :: 0 <= j < |rows| && rows[j].embedding.Some? ==> EntryOf(rows[j]) in LoadAll(rows)
  {
    if rows != [] {
      LoadAllContents(rows[1..]);
      var rest := LoadAll(rows[1..]);
      var head := if rows[0].embedding.Some? then [EntryOf(rows[0])] else [];
      assert LoadAll(rows) == head + rest;
      forall k | 0 <= k < |LoadAll(rows)|
        ensures exists j :: 0 <= j < |rows| && rows[j].embedding.Some? && LoadAll(rows)[k] == EntryOf(rows[j])
      {
        if k < |head| {
          assert rows[0].embedding.Some? && LoadAll(rows)[k] == EntryOf(rows[0]);
        } else {
          assert LoadAll(rows)[k] == rest[k - |head|];
          var j :| 0 <= j < |rows[1..]| && rows[1..][j].embedding.Some? && rest[k - |head|] == EntryOf(rows[1..][j]);
          assert rows[j + 1] == rows[1..][j];
          assert rows[j + 1].embedding.Some? && LoadAll(rows)[k] == EntryOf(rows[j + 1]);
        }
      }
      forall j | 0 <= j < |rows| && rows[j].embedding.Some? ensures EntryOf(rows[j]) in LoadAll(rows) {
        if j > 0 {
          assert rows[j] == rows[1..][j - 1];
        }
      }
    } else {
      assert LoadAll(rows) == [];
    }
  }

  /** Loading keeps query order: it distributes over the table's parts. */
  lemma {:induction false} LoadAllAppend<E>(a: seq<Student<E>>, b: seq<Student<E>>)
    ensures LoadAll(a + b) == LoadAll(a) + LoadAll(b)
  {
    if a == [] {
      assert a + b == b;
    } else {
      var head := if a[0].embedding.Some? then [EntryOf(a[0])] else [];
      assert (a + b)[0] == a[0];
      assert (a + b)[1..] == a[1..] + b;
      assert LoadAll(a + b) == head + LoadAll(a[1..] + b);
      LoadAllAppend(a[1..], b);
      assert LoadAll(a) == head + LoadAll(a[1..]);
    }
  }

  /** `get_all_students_list`: every row as {id, name}, in order. */
  function ListAll<E>(rows: seq<Student<E>>): (r: seq<Listing>)
    ensures |r| == |rows|
  {
    if rows == [] then [] else [Listing(rows[0].id, rows[0].name)] + ListAll(rows[1..])
  }

  /** Row `j` of the listing is row `j` of the table without its embedding. */
  lemma {:induction false} ListAllRows<E>(rows: seq<Student<E>>)
    ensures forall j :: 0 <= j < |rows| ==> ListAll(rows)[j] == Listing(rows[j].id, rows[j].name)
  {
    if rows != [] {
      ListAllRows(rows[1..]);
      forall j | 0 < j < |rows| ensures ListAll(rows)[j] == Listing(rows[j].id, rows[j].name) {
        assert rows[j] == rows[1..][j - 1];
      }
    }
  }

  /** The loaded list is as long as the full listing exactly when every
      student has an embedding. */
  lemma {:induction false} LoadAllComplete<E>(rows: seq<Student<E>>)
    ensures |LoadAll(rows)| == |ListAll(rows)| <==> forall j :: 0 <= j < |rows| ==> rows[j].embedding.Some?
  {
    if rows != [] {
      LoadAllComplete(rows[1..]);
      if rows[0].embedding.Some? {
        assert forall j :: 1 <= j < |rows| ==> rows[j] == rows[1..][j - 1];
      }
    }
  }
}
