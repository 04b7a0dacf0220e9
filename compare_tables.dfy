/** The column selection behind the comparison of two BigQuery tables: which of the
    first table's columns both tables can be compared on, and which repeated columns
    have to be flattened first. Schemas are lists of fields; the BigQuery client
    calls that fetch them are not part of this model. */
module CompareTables {
  import opened Common
  import opened Reconcile

  /** A BigQuery `SchemaField`: its name, `field_type` and `mode`. */
  datatype Field = Field(name: string, fieldType: string, mode: string)

  /** A Python list the caller owns and gen_select appends to. */
  class NameList {
    var items: seq<string>

    constructor (items: seq<string>)
      ensures this.items == items
    {
      this.items := items;
    }
  }

  /** `str.lower()` on one character, for ASCII letters. */
  function LowerChar(c: char): (r: char)
    ensures 'A' <= c <= 'Z' ==> r as int == c as int + 32
    ensures !('A' <= c <= 'Z') ==> r == c
    ensures !('A' <= r <= 'Z')
  {
    if 'A' <= c <= 'Z' then (c as int + 32) as char else c
  }

  function Lower(s: string): (r: string)
    ensures |r| == |s| && forall i :: 0 <= i < |s| ==> r[i] == LowerChar(s[i])
  {
    seq(|s|, i requires 0 <= i < |s| => LowerChar(s[i]))
  }

  /** Two names match when they agree once lower-cased. */
  predicate SameName(a: string, b: string)
  {
    Lower(a) == Lower(b)
  }

  /** `next(row for row in schema if row.name.lower() == name.lower())`: the first
      field of that name, None where `next` finds none. */
  function FirstNamed(schema: seq<Field>, name: string): (r: Option<Field>)
    ensures r.None? <==> forall f :: f in schema ==> !SameName(f.name, name)
    ensures r.Some? ==> r.value in schema && SameName(r.value.name, name)
  {
    if schema == [] then None
    else if SameName(schema[0].name, name) then Some(schema[0])
    else
      assert forall f :: f in schema[1..] ==> f in schema;
      assert forall f :: f in schema ==> f == schema[0] || f in schema[1..];
      FirstNamed(schema[1..], name)
  }

  /** The field found is the first of that name: no earlier field carries it. */
  lemma {:induction false} FirstNamedIsFirst(schema: seq<Field>, name: string)
    requires FirstNamed(schema, name).Some?
    ensures exists i :: 0 <= i < |schema| && schema[i] == FirstNamed(schema, name).value
                        && forall j :: 0 <= j < i ==> !SameName(schema[j].name, name)
  {
    if !SameName(schema[0].name, name) {
      var r := FirstNamed(schema[1..], name);
      FirstNamedIsFirst(schema[1..], name);
      var i :| 0 <= i < |schema[1..]| && schema[1..][i] == r.value
               && forall j :: 0 <= j < i ==> !SameName(schema[1..][j].name, name);
      assert schema[i + 1] == r.value;
      forall j | 0 <= j < i + 1
        ensures !SameName(schema[j].name, name)
      {
        if j > 0 {
          assert schema[j] == schema[1..][j - 1];
        }
      }
    }
  }

  /** `schema_has`: some field carries the name, ignoring case. */
  function SchemaHas(schema: seq<Field>, name: string): (r: bool)
    ensures r <==> exists f :: f in schema && SameName(f.name, name)
  {
    FirstNamed(schema, name).Some?
  }

  /** Whether a name is in a schema does not depend on its case. */
  lemma SchemaHasIgnoresCase(schema: seq<Field>, a: string, b: string)
    requires SameName(a, b)
    ensures SchemaHas(schema, a) == SchemaHas(schema, b)
  {
  }

  /** `types_match`: the first field of that name has the given type; None where the
      lookup raises StopIteration because no field has the name. */
  function TypesMatch(schema: seq<Field>, name: string, fieldType: string): (r: Option<bool>)
    ensures r.None? <==> !SchemaHas(schema, name)
  {
    var f := FirstNamed(schema, name);
    if f.Some? then Some(f.value.fieldType == fieldType) else None
  }

  /** In a schema whose names differ even ignoring case (as BigQuery's do), the types
      match exactly when the field of that name has the type. */
  lemma {:induction false} TypesMatchUnique(schema: seq<Field>, name: string, fieldType: string)
    requires forall i, j :: 0 <= i < j < |schema| ==> !SameName(schema[i].name, schema[j].name)
    ensures TypesMatch(schema, name, fieldType) == Some(true) <==>
      exists f :: f in schema && SameName(f.name, name) && f.fieldType == fieldType
  {
    var r := FirstNamed(schema, name);
    if g :| g in schema && SameName(g.name, name) && g.fieldType == fieldType {
      FirstNamedIsFirst(schema, name);
      var i :| 0 <= i < |schema| && schema[i] == r.value;
      var k :| 0 <= k < |schema| && schema[k] == g;
      if i < k {
        assert SameName(schema[i].name, schema[k].name);
      } else if k < i {
        assert SameName(schema[k].name, schema[i].name);
      }
    }
  }

  /** Where gen_select puts a field of the first table. */
  datatype Verdict =
    | Absent        // no field of that name in the second table
    | TypeDiffers   // the second table's field of that name has another type
    | Record        // a RECORD: compared on neither side
    | Flattened     // a REPEATED scalar: kept, and unnested on both sides
    | Kept

  function Classify(schema2: seq<Field>, f: Field): (v: Verdict)
    ensures v == Absent <==> !SchemaHas(schema2, f.name)
    ensures v == TypeDiffers <==> TypesMatch(schema2, f.name, f.fieldType) == Some(false)
    ensures v == Record <==> TypesMatch(schema2, f.name, f.fieldType) == Some(true) && f.fieldType == "RECORD"
    ensures v == Flattened <==>
      TypesMatch(schema2, f.name, f.fieldType) == Some(true) && f.fieldType != "RECORD" && f.mode == "REPEATED"
  {
    if !SchemaHas(schema2, f.name) then Absent
    else if !TypesMatch(schema2, f.name, f.fieldType).value then TypeDiffers
    else if f.fieldType == "RECORD" then Record
    else if f.mode == "REPEATED" && f.fieldType != "RECORD" then Flattened
    else Kept
  }

  predicate Dropped(v: Verdict)
  {
    v == Absent || v == TypeDiffers || v == Record
  }

  /** The names the walk over schema_1 appends to `excepts`, in schema order. */
  function ExcludedNames(schema1: seq<Field>, schema2: seq<Field>): seq<string>
  {
    if schema1 == [] then []
    else
      var f := schema1[|schema1| - 1];
      ExcludedNames(schema1[..|schema1| - 1], schema2) + (if Dropped(Classify(schema2, f)) then [f.name] else [])
  }

  /** `f'CROSS JOIN UNNEST({name}) AS {name}'` */
  function Unnest(name: string): string
  {
    "CROSS JOIN UNNEST(" + name + ") AS " + name
  }

  function UnnestOf(f: Field): string
  {
    Unnest(f.name)
  }

  /** The clauses the walk over schema_1 appends to `flatten`, in schema order. */
  function FlattenClauses(schema1: seq<Field>, schema2: seq<Field>): seq<string>
  {
    if schema1 == [] then []
    else
      var f := schema1[|schema1| - 1];
      FlattenClauses(schema1[..|schema1| - 1], schema2) + (if Classify(schema2, f) == Flattened then [Unnest(f.name)] else [])
  }

  /** A name is excluded exactly when some field of schema_1 carrying it is absent
      from schema_2, has another type there, or is a RECORD. */
  lemma {:induction false} ExcludedNamesIff(schema1: seq<Field>, schema2: seq<Field>, n: string)
    ensures n in ExcludedNames(schema1, schema2) <==>
      exists f :: f in schema1 && f.name == n
                  && (!SchemaHas(schema2, n) || TypesMatch(schema2, n, f.fieldType) == Some(false)
                      || f.fieldType == "RECORD")
  {
    if schema1 != [] {
      var init := schema1[..|schema1| - 1];
      ExcludedNamesIff(init, schema2, n);
      assert schema1 == init + [schema1[|schema1| - 1]];
    }
  }

  /** A field gen_select flattens: a REPEATED scalar that schema_2 holds with the same type. */
  predicate Unnested(f: Field, schema2: seq<Field>)
  {
    f.mode == "REPEATED" && f.fieldType != "RECORD" && TypesMatch(schema2, f.name, f.fieldType) == Some(true)
  }

  /** One clause per flattened field of schema_1, in schema order. */
  lemma {:induction false} FlattenClausesCount(schema1: seq<Field>, schema2: seq<Field>)
    ensures FlattenClauses(schema1, schema2) == Map(Filter(schema1, f => Unnested(f, schema2)), UnnestOf)
  {
    if schema1 != [] {
      var init := schema1[..|schema1| - 1];
      var last := schema1[|schema1| - 1];
      FlattenClausesCount(init, schema2);
      assert schema1 == init + [last];
      FilterSnoc(init, last, f => Unnested(f, schema2));
      MapConcat(Filter(init, f => Unnested(f, schema2)), if Unnested(last, schema2) then [last] else [],
                UnnestOf);
    }
  }

  /** A clause appears exactly when some field of schema_1 is flattened under that name. */
  lemma FlattenClausesIff(schema1: seq<Field>, schema2: seq<Field>, c: string)
    ensures c in FlattenClauses(schema1, schema2) <==>
      exists f :: f in schema1 && Unnested(f, schema2) && c == UnnestOf(f)
  {
    FlattenClausesCount(schema1, schema2);
    var fs := Filter(schema1, f => Unnested(f, schema2));
    var cs := Map(fs, UnnestOf);
    FilterMembers(schema1, f => Unnested(f, schema2));
    if c in cs {
      var i :| 0 <= i < |cs| && cs[i] == c;
      assert fs[i] in fs;
    }
    if f :| f in schema1 && Unnested(f, schema2) && c == UnnestOf(f) {
      assert f in fs;
      var i :| 0 <= i < |fs| && fs[i] == f;
      assert cs[i] == c;
    }
  }

  /** `if name in selects: selects.remove(name)` */
  function Drop(s: seq<string>, name: string): seq<string>
  {
    if name in s then RemoveFirst(s, name) else s
  }

  /** The selects after the removal loop over `excepts`, one name at a time. */
  function DropEach(s: seq<string>, excepts: seq<string>): seq<string>
  {
    if excepts == [] then s else Drop(DropEach(s, excepts[..|excepts| - 1]), excepts[|excepts| - 1])
  }

  function Names(schema: seq<Field>): seq<string>
  {
    Map(schema, (f: Field) => f.name)
  }

  /** The column list gen_select selects, before joining: schema_1's names, less the
      caller's excepts, less the excluded ones, less gcs_url and aws_url. */
  function Selected(schema1: seq<Field>, schema2: seq<Field>, excepts: seq<string>): seq<string>
  {
    Drop(Drop(DropEach(Names(schema1), excepts + ExcludedNames(schema1, schema2)), "gcs_url"), "aws_url")
  }

  /** A column gen_select keeps: not named by the caller, not excluded, not a URL. */
  predicate Selectable(n: string, excepts: seq<string>, schema1: seq<Field>, schema2: seq<Field>)
  {
    n !in excepts && n !in ExcludedNames(schema1, schema2) && n != "gcs_url" && n != "aws_url"
  }

  /** In a list without repeats, removing the first occurrence removes every one. */
  lemma {:induction false} RemoveFirstDistinct(s: seq<string>, x: string)
    requires Distinct(s)
    ensures Drop(s, x) == Filter(s, y => y != x)
  {
    if s != [] {
      DistinctCons(s);
      RemoveFirstDistinct(s[1..], x);
      if s[0] == x {
        FilterAll(s[1..], y => y != x);
      } else if x in s[1..] {
        assert Drop(s, x) == [s[0]] + RemoveFirst(s[1..], x);
      } else {
        FilterAll(s[1..], y => y != x);
        assert Filter(s, y => y != x) == [s[0]] + s[1..];
      }
    }
  }

  /** Filtering twice is filtering once on both conditions. */
  lemma {:induction false} FilterFilter(s: seq<string>, f: string -> bool, g: string -> bool, h: string -> bool)
    requires forall x :: h(x) == (f(x) && g(x))
    ensures Filter(Filter(s, f), g) == Filter(s, h)
  {
    if s != [] {
      var t := s[1..];
      FilterFilter(t, f, g, h);
      var u := Filter(s, f);
      if f(s[0]) {
        calc {
          Filter(u, g);
          { assert u == [s[0]] + Filter(t, f) && u[0] == s[0] && u[1..] == Filter(t, f); }
          (if g(s[0]) then [s[0]] else []) + Filter(Filter(t, f), g);
          (if h(s[0]) then [s[0]] else []) + Filter(t, h);
          Filter(s, h);
        }
      } else {
        assert u == Filter(t, f);
        assert !h(s[0]);
      }
    }
  }

  /** Over a list without repeats, the removal loop keeps exactly the names not in
      `excepts`, in their order. */
  lemma {:induction false} DropEachDistinct(s: seq<string>, excepts: seq<string>)
    requires Distinct(s)
    ensures DropEach(s, excepts) == Filter(s, n => n !in excepts)
  {
    if excepts == [] {
      FilterAll(s, n => n !in excepts);
    } else {
      var init := excepts[..|excepts| - 1];
      var x := excepts[|excepts| - 1];
      DropEachDistinct(s, init);
      FilterDistinct(s, n => n !in init);
      RemoveFirstDistinct(Filter(s, n => n !in init), x);
      assert excepts == init + [x];
      FilterFilter(s, n => n !in init, y => y != x, n => n !in excepts);
    }
  }

  /** Dropping gcs_url and then aws_url from a list without repeats keeps the other
      names in order. */
  lemma DropUrls(s: seq<string>)
    requires Distinct(s)
    ensures Drop(Drop(s, "gcs_url"), "aws_url") == Filter(s, n => n != "gcs_url" && n != "aws_url")
  {
    RemoveFirstDistinct(s, "gcs_url");
    var s1 := Filter(s, y => y != "gcs_url");
    FilterDistinct(s, y => y != "gcs_url");
    RemoveFirstDistinct(s1, "aws_url");
    FilterFilter(s, y => y != "gcs_url", y => y != "aws_url", n => n != "gcs_url" && n != "aws_url");
  }

  /** What gen_select promises about the selected columns when schema_1's names do
      not repeat: they are schema_1's names in schema_1's order, less the caller's
      excepts and the excluded names; gcs_url and aws_url never appear. */
  lemma SelectedColumns(schema1: seq<Field>, schema2: seq<Field>, excepts: seq<string>)
    requires Distinct(Names(schema1))
    ensures Selected(schema1, schema2, excepts) == Filter(Names(schema1), n => Selectable(n, excepts, schema1, schema2))
    ensures forall n :: n in Selected(schema1, schema2, excepts) <==>
      n in Names(schema1) && Selectable(n, excepts, schema1, schema2)
  {
    var all := excepts + ExcludedNames(schema1, schema2);
    var s := Names(schema1);
    DropEachDistinct(s, all);
    var s1 := Filter(s, n => n !in all);
    FilterDistinct(s, n => n !in all);
    DropUrls(s1);
    FilterFilter(s, n => n !in all, n => n != "gcs_url" && n != "aws_url",
                 n => Selectable(n, excepts, schema1, schema2));
    FilterMembers(s, n => Selectable(n, excepts, schema1, schema2));
  }

  /** `sep.join(xs)` */
  function Join(xs: seq<string>, sep: string): string
  {
    if xs == [] then "" else if |xs| == 1 then xs[0] else xs[0] + sep + Join(xs[1..], sep)
  }

  /** `s.split(c)` for a one-character separator. */
  function SplitOn(s: string, c: char): (r: seq<string>)
    ensures r != []
  {
    if c !in s then [s]
    else
      var i := IndexOf(s, c);
      [s[..i]] + SplitOn(s[i + 1..], c)
  }

  /** Joining names that do not hold the separator can be undone by splitting: a
      joined select list names exactly the selected columns. */
  lemma {:induction false} JoinSplit(xs: seq<string>, c: char)
    requires xs != [] && forall x :: x in xs ==> c !in x
    ensures SplitOn(Join(xs, [c]), c) == xs
  {
    if |xs| == 1 {
    } else {
      var s := Join(xs, [c]);
      var rest := Join(xs[1..], [c]);
      assert s == xs[0] + [c] + rest;
      assert s[|xs[0]|] == c;
      assert forall j :: 0 <= j < |xs[0]| ==> s[j] == xs[0][j] && xs[0][j] in xs[0];
      assert forall j :: 0 <= j < |xs[0]| ==> s[j] != c;
      assert IndexOf(s, c) == |xs[0]|;
      assert s[..|xs[0]|] == xs[0];
      assert s[|xs[0]| + 1..] == rest;
      JoinSplit(xs[1..], c);
    }
  }

  /** The walk over schema_1: each field absent from schema_2, typed differently there,
      or a RECORD is appended to `excepts`; each remaining REPEATED field gets one
      UNNEST clause. */
  method ClassifyFields(schema1: seq<Field>, excepts: NameList, schema2: seq<Field>) returns (flatten: seq<string>)
    modifies excepts
    ensures excepts.items == old(excepts.items) + ExcludedNames(schema1, schema2)
    ensures flatten == FlattenClauses(schema1, schema2)
  {
    flatten := [];
    for i := 0 to |schema1|
      invariant excepts.items == old(excepts.items) + ExcludedNames(schema1[..i], schema2)
      invariant flatten == FlattenClauses(schema1[..i], schema2)
    {
      var row := schema1[i];
      ghost var v := Classify(schema2, row);
      assert schema1[..i + 1][..i] == schema1[..i] && schema1[..i + 1][i] == row;
      if !SchemaHas(schema2, row.name) {
        excepts.items := excepts.items + [row.name];
      } else if !TypesMatch(schema2, row.name, row.fieldType).value {
        excepts.items := excepts.items + [row.name];
      } else if row.fieldType == "RECORD" {
        excepts.items := excepts.items + [row.name];
      } else if row.mode == "REPEATED" && row.fieldType != "RECORD" {
        flatten := flatten + [Unnest(row.name)];
      }
    }
    assert schema1[..|schema1|] == schema1;
  }

  /** The removal loop: each name of `excepts` still among the selects is removed once. */
  method DropExcepts(names: seq<string>, excepts: seq<string>) returns (selects: seq<string>)
    ensures selects == DropEach(names, excepts)
  {
    selects := names;
    for i := 0 to |excepts|
      invariant selects == DropEach(names, excepts[..i])
    {
      assert excepts[..i + 1][..i] == excepts[..i];
      var name := excepts[i];
      if name in selects {
        selects := RemoveFirst(selects, name);
      }
    }
    assert excepts[..|excepts|] == excepts;
  }

  /** `gen_select` on the two fetched schemas: the selected columns joined by commas
      and the UNNEST clauses joined by a newline and indentation; the caller's
      `excepts` grows by the excluded names. */
  method GenSelect(schema1: seq<Field>, excepts: NameList, schema2: seq<Field>)
    returns (selects: string, flattens: string)
    modifies excepts
    ensures excepts.items == old(excepts.items) + ExcludedNames(schema1, schema2)
    ensures selects == Join(Selected(schema1, schema2, old(excepts.items)), ",")
    ensures flattens == Join(FlattenClauses(schema1, schema2), "\n\t  ")
  {
    var flatten := ClassifyFields(schema1, excepts, schema2);
    var names := Names(schema1);
    var kept := DropExcepts(names, excepts.items);
    if "gcs_url" in kept {
      kept := RemoveFirst(kept, "gcs_url");
    }
    if "aws_url" in kept {
      kept := RemoveFirst(kept, "aws_url");
    }
    selects := Join(kept, ",");
    flattens := Join(flatten, "\n\t  ");
  }
}
