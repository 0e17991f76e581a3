/**
 * The schema-completeness gate used by `generate_sidebar_schema`.
 *
 * An extraction schema is a list of field descriptors. Its field names are
 * the top-level names plus, for every field whose type is `"list"`, the names
 * of its nested fields (one level deep; nested fields of other fields do not
 * count). The gate fails when any of the seven required names is missing,
 * and the error message lists the missing names in ascending order, joined
 * by `", "`.
 */
module SchemaCheck {
  import opened Wrappers

  /**
   * One field descriptor: its `name`, its `type`, and its nested `fields`
   * when the descriptor has that key. Selectors and attributes are left out.
   */
  datatype Field = Field(name: string, kind: string, subfields: Option<seq<Field>>)

  /** The `fields` list of a schema document. */
  type Schema = seq<Field>

  /** The exception the gate raises: a missing dictionary key, or an incomplete schema. */
  datatype SchemaError = KeyError(key: string) | ValueError(message: string)

  /** The names the harvest needs the schema to produce. */
  const TargetFields: set<string> :=
    {"product_title", "overall_rating", "review_count", "store", "price", "href", "store_rating"}

  /** The same names in ascending code-point order. */
  const TargetsAscending: seq<string> :=
    ["href", "overall_rating", "price", "product_title", "review_count", "store", "store_rating"]

  const MissingPrefix: string := "Generated schema is missing fields: "

  predicate IsList(f: Field)
  {
    f.kind == "list"
  }

  /** Every list field carries the nested `fields` key the gate reads. */
  predicate WellFormed(s: Schema)
  {
    forall i :: 0 <= i < |s| && IsList(s[i]) ==> s[i].subfields.Some?
  }

  /** `x` is a top-level name, or a nested name of a list field. */
  ghost predicate Declares(s: Schema, x: string)
  {
    || (exists i :: 0 <= i < |s| && s[i].name == x)
    || (exists i, j :: 0 <= i < |s| && IsList(s[i]) && s[i].subfields.Some?
          && 0 <= j < |s[i].subfields.value| && s[i].subfields.value[j].name == x)
  }

  /** The names of a list of descriptors. */
  function NamesOf(fs: seq<Field>): set<string>
  {
    set k | 0 <= k < |fs| :: fs[k].name
  }

  /** The names one descriptor contributes. */
  function OwnNames(f: Field): set<string>
    requires IsList(f) ==> f.subfields.Some?
  {
    {f.name} + if IsList(f) then NamesOf(f.subfields.value) else {}
  }

  /** The name set the gate builds; reading `fields` of a list field without it raises `KeyError`. */
  function CollectNames(s: Schema): (r: Result<set<string>, SchemaError>)
    ensures r.Success? <==> WellFormed(s)
    ensures r.Failure? ==> r.error == KeyError("fields")
  {
    if |s| == 0 then Success({})
    else if IsList(s[0]) && s[0].subfields.None? then Failure(KeyError("fields"))
    else match CollectNames(s[1..])
      case Failure(e) => Failure(e)
      case Success(rest) => Success(OwnNames(s[0]) + rest)
  }

  // ---------------------------------------------------------------------------
  // Ascending order of names, as `sorted` orders strings

  /** Code-point lexicographic order: `a` sorts strictly before `b`. */
  predicate LexLess(a: string, b: string)
  {
    |b| > 0 && (|a| == 0 || a[0] < b[0] || (a[0] == b[0] && LexLess(a[1..], b[1..])))
  }

  predicate Ascending(xs: seq<string>)
  {
    forall i, j :: 0 <= i < j < |xs| ==> LexLess(xs[i], xs[j])
  }

  /** The elements of `xs` outside `names`, in the order of `xs`. */
  function Without(xs: seq<string>, names: set<string>): (r: seq<string>)
    ensures forall x :: x in r <==> x in xs && x !in names
    ensures Ascending(xs) ==> Ascending(r)
  {
    if |xs| == 0 then []
    else
      var rest := Without(xs[1..], names);
      assert Ascending(xs) ==> forall y :: y in rest ==> LexLess(xs[0], y);
      (if xs[0] in names then [] else [xs[0]]) + rest
  }

  /** The required names missing from `names`, in the order `sorted` gives them. */
  function MissingListing(names: set<string>): (r: seq<string>)
    ensures forall x :: x in r <==> x in TargetFields && x !in names
    ensures Ascending(r)
  {
    TargetsAscendingFacts();
    Without(TargetsAscending, names)
  }

  /** `sep.join(xs)`: the names in order, with `sep` between neighbours and nowhere else. */
  function Join(xs: seq<string>, sep: string): (r: string)
    ensures |xs| > 0 ==> xs[0] <= r
    ensures |xs| > 1 ==> xs[0] + sep <= r
    ensures |xs| > 0 ==> |r| == JoinedLength(xs) + (|xs| - 1) * |sep|
    ensures |xs| == 0 ==> r == []
  {
    if |xs| == 0 then ""
    else if |xs| == 1 then
      assert xs[1..] == [];
      xs[0]
    else
      var rest := Join(xs[1..], sep);
      assert (|xs| - 1) * |sep| == |sep| + (|xs| - 2) * |sep|;
      xs[0] + sep + rest
  }

  /**
   * Splitting the names anywhere splits the joined string at one separator.
   * With the one-name case of `Join`, this fixes every name's place.
   */
  lemma {:induction false} JoinSplit(xs: seq<string>, sep: string, k: nat)
    requires 0 < k < |xs|
    ensures Join(xs, sep) == Join(xs[..k], sep) + sep + Join(xs[k..], sep)
  {
    var front := xs[..k];
    if k == 1 {
      assert front == [xs[0]];
      JoinCons(xs, sep);
    } else {
      var tail := xs[1..];
      JoinSplit(tail, sep, k - 1);
      assert front[1..] == tail[..k - 1];
      assert tail[k - 1..] == xs[k..];
      JoinCons(xs, sep);
      JoinCons(front, sep);
      var left, right := Join(front[1..], sep), Join(xs[k..], sep);
      ConcatAssoc(xs[0] + sep, left + sep, right);
      ConcatAssoc(xs[0] + sep, left, sep);
    }
  }

  /** A listing of two or more names joins as its first name, the separator, then the rest. */
  lemma JoinCons(xs: seq<string>, sep: string)
    requires |xs| > 1
    ensures Join(xs, sep) == xs[0] + sep + Join(xs[1..], sep)
  {
  }

  /** Regrouping a three-part concatenation. */
  lemma ConcatAssoc(a: string, b: string, c: string)
    ensures a + (b + c) == a + b + c
  {
  }


  /** The total length of the names in `xs`. */
  function JoinedLength(xs: seq<string>): nat
  {
    if |xs| == 0 then 0 else |xs[0]| + JoinedLength(xs[1..])
  }

  /**
   * `_validate_schema`: passes exactly when the schema is well formed and
   * declares every required name; otherwise raises, naming the missing
   * fields in ascending order.
   */
  function ValidateSchema(s: Schema): (r: Outcome<SchemaError>)
    ensures r.Pass? <==> WellFormed(s) && forall x :: x in TargetFields ==> Declares(s, x)
    ensures r.Fail? && !WellFormed(s) ==> r.error == KeyError("fields")
    ensures r.Fail? && WellFormed(s) ==>
      r.error == ValueError(MissingPrefix + Join(MissingListing(CollectNames(s).value), ", "))
  {
    NamesExact(s);
    match CollectNames(s)
    case Failure(e) => Fail(e)
    case Success(names) =>
      var missing := MissingListing(names);
      assert |missing| > 0 ==> missing[0] in missing;
      if |missing| > 0 then Fail(ValueError(MissingPrefix + Join(missing, ", "))) else Pass
  }

  // ---------------------------------------------------------------------------
  // Lemmas

  lemma TargetsAscendingFacts()
    ensures Ascending(TargetsAscending)
    ensures forall x :: x in TargetsAscending <==> x in TargetFields
  {
    TargetsAscendingSorted();
  }

  lemma TargetsAscendingSorted()
    ensures Ascending(TargetsAscending)
  {
    var xs := TargetsAscending;
    assert LexLess(xs[0], xs[1]) && LexLess(xs[1], xs[2]) && LexLess(xs[2], xs[3]);
    assert LexLess(xs[3], xs[4]) && LexLess(xs[4], xs[5]);
    assert LexLess(xs[5], xs[6]);
    ChainAscending(xs);
  }

  lemma {:induction false} LexLessTransitive(a: string, b: string, c: string)
    requires LexLess(a, b) && LexLess(b, c)
    ensures LexLess(a, c)
  {
    if |a| > 0 && a[0] == b[0] && b[0] == c[0] {
      LexLessTransitive(a[1..], b[1..], c[1..]);
    }
  }

  /** A listing whose neighbours are in order is ascending. */
  lemma {:induction false} ChainAscending(xs: seq<string>)
    requires forall k :: 0 <= k < |xs| - 1 ==> LexLess(xs[k], xs[k + 1])
    ensures Ascending(xs)
  {
    if |xs| > 1 {
      ChainAscending(xs[1..]);
      forall j | 1 <= j < |xs|
        ensures LexLess(xs[0], xs[j])
      {
        if j > 1 {
          assert LexLess(xs[1], xs[j]) by { assert xs[1..][0] == xs[1] && xs[1..][j - 1] == xs[j]; }
          LexLessTransitive(xs[0], xs[1], xs[j]);
        }
      }
      forall i, j | 0 <= i < j < |xs|
        ensures LexLess(xs[i], xs[j])
      {
        if i > 0 {
          assert xs[1..][i - 1] == xs[i] && xs[1..][j - 1] == xs[j];
        }
      }
    }
  }

  /** The collected names are exactly the top-level names and the nested names of list fields. */
  lemma {:induction false} NamesExact(s: Schema)
    ensures CollectNames(s).Success? ==> forall x :: x in CollectNames(s).value <==> Declares(s, x)
  {
    if |s| > 0 && CollectNames(s).Success? {
      var rest := s[1..];
      NamesExact(rest);
      forall x
        ensures x in CollectNames(s).value <==> Declares(s, x)
      {
        DeclaresCons(s, x);
      }
    }
  }

  lemma DeclaresCons(s: Schema, x: string)
    requires |s| > 0
    requires IsList(s[0]) ==> s[0].subfields.Some?
    ensures Declares(s, x) <==> x in OwnNames(s[0]) || Declares(s[1..], x)
  {
    var rest := s[1..];
    if Declares(s, x) && x !in OwnNames(s[0]) {
      if i :| 0 <= i < |s| && s[i].name == x {
        assert rest[i - 1].name == x;
      } else {
        var i, j :| 0 <= i < |s| && IsList(s[i]) && s[i].subfields.Some?
          && 0 <= j < |s[i].subfields.value| && s[i].subfields.value[j].name == x;
        assert i != 0;
        assert rest[i - 1] == s[i];
      }
    }
    if Declares(rest, x) {
      if i :| 0 <= i < |rest| && rest[i].name == x {
        assert s[i + 1].name == x;
      } else {
        var i, j :| 0 <= i < |rest| && IsList(rest[i]) && rest[i].subfields.Some?
          && 0 <= j < |rest[i].subfields.value| && rest[i].subfields.value[j].name == x;
        assert s[i + 1] == rest[i];
      }
    }
    if x in OwnNames(s[0]) && x != s[0].name {
      var j :| 0 <= j < |s[0].subfields.value| && s[0].subfields.value[j].name == x;
    }
  }

  lemma LexLessIrreflexive(a: string)
    ensures !LexLess(a, a)
  {
    if |a| > 0 {
      LexLessIrreflexive(a[1..]);
    }
  }

  lemma LexLessAsymmetric(a: string, b: string)
    ensures LexLess(a, b) ==> !LexLess(b, a)
  {
    if |a| > 0 && |b| > 0 && a[0] == b[0] {
      LexLessAsymmetric(a[1..], b[1..]);
    }
  }

  /**
   * A set of names has one ascending listing only, so the listing in the
   * message is the one `sorted` returns.
   */
  lemma {:induction false} AscendingListingUnique(xs: seq<string>, ys: seq<string>)
    requires Ascending(xs) && Ascending(ys)
    requires forall x :: x in xs <==> x in ys
    ensures xs == ys
  {
    assert |xs| == 0 <==> |ys| == 0 by {
      if |xs| > 0 {
        assert xs[0] in xs;
      }
      if |ys| > 0 {
        assert ys[0] in ys;
      }
    }
    if |xs| > 0 {
      assert xs[0] in xs && ys[0] in ys;
      var k :| 0 <= k < |ys| && ys[k] == xs[0];
      var m :| 0 <= m < |xs| && xs[m] == ys[0];
      LexLessAsymmetric(xs[0], ys[0]);
      assert k == 0 || m == 0;
      assert xs[0] == ys[0];
      forall x
        ensures x in xs[1..] <==> x in ys[1..]
      {
        LexLessIrreflexive(xs[0]);
        if x in xs[1..] {
          var k :| 0 <= k < |xs| - 1 && xs[k + 1] == x;
          assert LexLess(xs[0], xs[k + 1]);
          assert x != ys[0];
          assert x in ys;
        }
        if x in ys[1..] {
          var k :| 0 <= k < |ys| - 1 && ys[k + 1] == x;
          assert LexLess(ys[0], ys[k + 1]);
          assert x != xs[0];
          assert x in xs;
        }
      }
      AscendingListingUnique(xs[1..], ys[1..]);
      assert xs == [xs[0]] + xs[1..];
      assert ys == [ys[0]] + ys[1..];
    }
  }

  // ---------------------------------------------------------------------------
  // Removing a required name

  lemma NamesOfCons(f: Field, fs: seq<Field>)
    ensures NamesOf([f] + fs) == {f.name} + NamesOf(fs)
  {
    var all := [f] + fs;
    forall x | x in NamesOf(all)
      ensures x in {f.name} + NamesOf(fs)
    {
      var k :| 0 <= k < |all| && all[k].name == x;
      if k > 0 {
        assert fs[k - 1].name == x;
      }
    }
    assert all[0] == f;
    forall x | x in NamesOf(fs)
      ensures x in NamesOf(all)
    {
      var k :| 0 <= k < |fs| && fs[k].name == x;
      assert all[k + 1].name == x;
    }
  }

  /** `fs` without the descriptors named `n`. */
  function DropNamed(fs: seq<Field>, n: string): (r: seq<Field>)
    ensures NamesOf(r) == NamesOf(fs) - {n}
  {
    if |fs| == 0 then []
    else
      var rest := DropNamed(fs[1..], n);
      NamesOfCons(fs[0], fs[1..]);
      assert [fs[0]] + fs[1..] == fs;
      if fs[0].name == n then rest
      else
        NamesOfCons(fs[0], rest);
        [fs[0]] + rest
  }

  /**
   * The schema with the name `n` taken out: top-level descriptors named `n`
   * are dropped, and so are nested descriptors named `n` inside list fields.
   */
  function RemoveName(s: Schema, n: string): Schema
  {
    if |s| == 0 then []
    else
      var f := s[0];
      var rest := RemoveName(s[1..], n);
      if f.name == n then rest
      else if IsList(f) && f.subfields.Some? then [f.(subfields := Some(DropNamed(f.subfields.value, n)))] + rest
      else [f] + rest
  }

  lemma {:induction false} RemoveNameNames(s: Schema, n: string)
    requires WellFormed(s)
    requires forall i :: 0 <= i < |s| && IsList(s[i]) ==> s[i].name != n
    ensures CollectNames(RemoveName(s, n)).Success?
    ensures CollectNames(RemoveName(s, n)).value == CollectNames(s).value - {n}
  {
    if |s| > 0 {
      var f := s[0];
      RemoveNameNames(s[1..], n);
      var rest := RemoveName(s[1..], n);
      if f.name != n && IsList(f) {
        var g := f.(subfields := Some(DropNamed(f.subfields.value, n)));
        assert ([g] + rest)[0] == g && ([g] + rest)[1..] == rest;
        assert OwnNames(g) == OwnNames(f) - {n};
      } else if f.name != n {
        assert ([f] + rest)[0] == f && ([f] + rest)[1..] == rest;
      }
    }
  }

  /**
   * Taking one required name out of a schema that passes makes the gate fail
   * with a message naming exactly that field (provided no list field carries
   * that name, which would take its nested names along).
   */
  lemma RemovingRequiredNameReportsIt(s: Schema, n: string)
    requires ValidateSchema(s).Pass?
    requires n in TargetFields
    requires forall i :: 0 <= i < |s| && IsList(s[i]) ==> s[i].name != n
    ensures ValidateSchema(RemoveName(s, n)) == Fail(ValueError(MissingPrefix + n))
  {
    NamesExact(s);
    RemoveNameNames(s, n);
    var names := CollectNames(RemoveName(s, n)).value;
    assert forall x :: x in TargetFields && x !in names <==> x == n;
    AscendingListingUnique(MissingListing(names), [n]);
  }

  /** A schema with every required field: three top-level fields and a `merchants` list. */
  const ExampleSchema: Schema := [
    Field("product_title", "text", None),
    Field("overall_rating", "text", None),
    Field("review_count", "text", None),
    Field("merchants", "list", Some([
      Field("store", "text", None),
      Field("price", "text", None),
      Field("href", "attribute", None),
      Field("store_rating", "attribute", None)]))]

  /** A schema lacking `store_rating` is refused with a message that names it, also when it comes from the generator. */
  lemma MissingStoreRatingIsReported()
    ensures ValidateSchema(RemoveName(ExampleSchema, "store_rating"))
      == Fail(ValueError(MissingPrefix + "store_rating"))
    ensures ObtainSchema(None, false, RemoveName(ExampleSchema, "store_rating"))
      == Obtained(true, Failure(ValueError(MissingPrefix + "store_rating")))
  {
    ExampleSchemaPasses();
    ExampleListFields();
    RemovingRequiredNameReportsIt(ExampleSchema, "store_rating");
  }

  /** The example's only list field is `merchants`. */
  lemma ExampleListFields()
    ensures forall i :: 0 <= i < |ExampleSchema| && IsList(ExampleSchema[i]) ==> ExampleSchema[i].name != "store_rating"
  {
    var s := ExampleSchema;
    assert !IsList(s[0]) && !IsList(s[1]) && !IsList(s[2]) && s[3].name != "store_rating";
  }

  lemma ExampleSchemaPasses()
    ensures ValidateSchema(ExampleSchema).Pass?
  {
    var s := ExampleSchema;
    assert WellFormed(s);
    forall x | x in TargetFields
      ensures Declares(s, x)
    {
      if x == "product_title" { assert s[0].name == x; }
      else if x == "overall_rating" { assert s[1].name == x; }
      else if x == "review_count" { assert s[2].name == x; }
      else if x == "store" { assert s[3].subfields.value[0].name == x; }
      else if x == "price" { assert s[3].subfields.value[1].name == x; }
      else if x == "href" { assert s[3].subfields.value[2].name == x; }
      else { assert s[3].subfields.value[3].name == x; }
    }
  }

  /** Nested descriptors of a field that is not a list never contribute names. */
  lemma NonListNestedIgnored(s: Schema, i: nat, nested: Option<seq<Field>>)
    requires i < |s| && !IsList(s[i])
    ensures CollectNames(s[i := s[i].(subfields := nested)]) == CollectNames(s)
  {
    var t := s[i := s[i].(subfields := nested)];
    if i > 0 {
      assert t[1..] == s[1..][i - 1 := s[i].(subfields := nested)];
      NonListNestedIgnored(s[1..], i - 1, nested);
    } else {
      assert t[1..] == s[1..];
    }
  }

  // ---------------------------------------------------------------------------
  // Obtaining the schema

  /**
   * What obtaining the schema does: whether it writes the cache file, and the
   * schema or the gate's error.
   */
  datatype Obtained = Obtained(writeCache: bool, result: Result<Schema, SchemaError>)

  /**
   * `generate_sidebar_schema`: the cached schema when there is one and no
   * regeneration is forced, otherwise the freshly generated one. A generated
   * schema is written to the cache before the gate runs, so it is written even
   * when the gate then rejects it.
   */
  function ObtainSchema(cached: Option<Schema>, force: bool, generated: Schema): (r: Obtained)
    ensures r.writeCache <==> cached.None? || force
    ensures r.result.Success? <==> ValidateSchema(if cached.Some? && !force then cached.value else generated).Pass?
    ensures r.result.Success? ==> r.result.value == if cached.Some? && !force then cached.value else generated
    ensures r.result.Failure? ==> Fail(r.result.error) == ValidateSchema(if cached.Some? && !force then cached.value else generated)
  {
    var useCache := cached.Some? && !force;
    var schema := if useCache then cached.value else generated;
    match ValidateSchema(schema)
    case Fail(e) => Obtained(!useCache, Failure(e))
    case Pass => Obtained(!useCache, Success(schema))
  }
}
