/**
 * The department catalog: reading the department drop-down
 * (`get_departamentos_list`) and choosing the departments a user asked for
 * by name (`download_specific_departamentos`).
 */
module Catalog {
  import opened Wrappers
  import opened Text

  /** One `<option>` of the drop-down: its `value` attribute (absent when
      `get_attribute` returns `None`) and its visible text. */
  datatype SelectOption = SelectOption(value: Option<string>, text: string)

  /** A department: `codigo` (the raw option value) and `nombre` (the
      stripped option text, later the base name of its file). */
  datatype Region = Region(code: string, name: string)

  /** `option.get_attribute("value") and option.get_attribute("value").strip()`:
      a value that is present and not all whitespace (see `ListedIff`). */
  predicate Listed(o: SelectOption) {
    o.value.Some? && !AllSpace(o.value.value)
  }

  lemma ListedIff(o: SelectOption)
    ensures Listed(o) <==> o.value.Some? && o.value.value != [] && Strip(o.value.value) != []
  {
    if o.value.Some? {
      StripBlank(o.value.value);
    }
  }

  function RegionOf(o: SelectOption): Region
    requires o.value.Some?
  {
    Region(o.value.value, Strip(o.text))
  }

  /** The catalog the drop-down yields: one region per listed option, in
      option order. */
  function CatalogOf(options: seq<SelectOption>): seq<Region> {
    if options == [] then []
    else
      var last := options[|options| - 1];
      CatalogOf(options[..|options| - 1]) + (if Listed(last) then [RegionOf(last)] else [])
  }

  /** `get_departamentos_list`: `None` stands for the drop-down not being
      found in time (or any other exception), which yields the empty list. */
  method GetRegions(select: Option<seq<SelectOption>>) returns (regions: seq<Region>)
    ensures select.None? ==> regions == []
    ensures select.Some? ==> regions == CatalogOf(select.value)
  {
    regions := [];
    if select.None? {
      return;
    }
    var options := select.value;
    var i := 0;
    while i < |options|
      invariant 0 <= i <= |options|
      invariant regions == CatalogOf(options[..i])
    {
      var option := options[i];
      ListedIff(option);
      if option.value.Some? && option.value.value != [] && Strip(option.value.value) != [] {
        regions := regions + [Region(option.value.value, Strip(option.text))];
      }
      assert options[..i + 1][..i] == options[..i];
      i := i + 1;
    }
    assert options[..|options|] == options;
  }

  /** Every catalog region comes from a listed option; the lemma names it. */
  lemma {:induction false} CatalogSource(options: seq<SelectOption>, r: Region) returns (i: nat)
    requires r in CatalogOf(options)
    ensures i < |options| && Listed(options[i]) && RegionOf(options[i]) == r
  {
    var m := |options| - 1;
    if r in CatalogOf(options[..m]) {
      i := CatalogSource(options[..m], r);
      assert options[..m][i] == options[i];
    } else {
      i := m;
    }
  }

  /** Every listed option yields a catalog region. */
  lemma {:induction false} CatalogComplete(options: seq<SelectOption>, i: nat)
    requires i < |options| && Listed(options[i])
    ensures RegionOf(options[i]) in CatalogOf(options)
  {
    var m := |options| - 1;
    var init := options[..m];
    if i < m {
      assert init[i] == options[i];
      CatalogComplete(init, i);
      CatalogExtends(options);
    }
  }

  /** The catalog of a list extends the catalog of the list without its last option. */
  lemma CatalogExtends(options: seq<SelectOption>)
    requires options != []
    ensures forall r :: r in CatalogOf(options[..|options| - 1]) ==> r in CatalogOf(options)
  {
  }

  /** Every catalog region has a non-blank code and an already stripped name. */
  lemma CatalogWellFormed(options: seq<SelectOption>, r: Region)
    requires r in CatalogOf(options)
    ensures Strip(r.code) != [] && Strip(r.name) == r.name
  {
    var i := CatalogSource(options, r);
    StripBlank(r.code);
    StripIdempotent(options[i].text);
  }

  /** The list comprehension `[nombre.lower() for nombre in departamentos_nombres]`. */
  function LowerAll(names: seq<string>): seq<string> {
    seq(|names|, i requires 0 <= i < |names| => Lower(names[i]))
  }

  /** `dept['nombre'].lower() in [nombre.lower() for nombre in departamentos_nombres]`. */
  predicate Requested(r: Region, names: seq<string>) {
    Lower(r.name) in LowerAll(names)
  }

  lemma RequestedIff(r: Region, names: seq<string>)
    ensures Requested(r, names) <==> exists n :: n in names && Lower(n) == Lower(r.name)
  {
    if Requested(r, names) {
      var i :| 0 <= i < |names| && LowerAll(names)[i] == Lower(r.name);
      assert names[i] in names;
    }
    if exists n :: n in names && Lower(n) == Lower(r.name) {
      var n :| n in names && Lower(n) == Lower(r.name);
      var i :| 0 <= i < |names| && names[i] == n;
      assert LowerAll(names)[i] == Lower(r.name);
    }
  }

  /** The departments to download: the catalog entries whose name matches a
      requested name case-insensitively, in catalog order. */
  function SelectRequested(catalog: seq<Region>, names: seq<string>): seq<Region> {
    if catalog == [] then []
    else (if Requested(catalog[0], names) then [catalog[0]] else []) + SelectRequested(catalog[1..], names)
  }

  /** `xs` is `ys` with some elements dropped and the rest kept in order. */
  ghost predicate SubsequenceOf<T>(xs: seq<T>, ys: seq<T>)
    decreases |ys|
  {
    if xs == [] then true
    else if ys == [] then false
    else (xs[0] == ys[0] && SubsequenceOf(xs[1..], ys[1..])) || SubsequenceOf(xs, ys[1..])
  }

  lemma {:induction false} SelectRequestedSubsequence(catalog: seq<Region>, names: seq<string>)
    ensures SubsequenceOf(SelectRequested(catalog, names), catalog)
  {
    if catalog != [] {
      SelectRequestedSubsequence(catalog[1..], names);
      var rest := SelectRequested(catalog[1..], names);
      if Requested(catalog[0], names) {
        assert ([catalog[0]] + rest)[1..] == rest;
      } else {
        assert [] + rest == rest;
      }
    }
  }

  /** The filter keeps exactly the catalog regions that were asked for. */
  lemma {:induction false} SelectRequestedMembers(catalog: seq<Region>, names: seq<string>, r: Region)
    ensures r in SelectRequested(catalog, names) <==> r in catalog && Requested(r, names)
  {
    if catalog != [] {
      SelectRequestedMembers(catalog[1..], names, r);
      assert catalog == [catalog[0]] + catalog[1..];
    }
  }

  /** The selection is empty (and the run aborts) exactly when no catalog
      name matches any requested name. */
  lemma SelectRequestedEmpty(catalog: seq<Region>, names: seq<string>)
    ensures SelectRequested(catalog, names) == [] <==>
      forall i :: 0 <= i < |catalog| ==> !Requested(catalog[i], names)
  {
    if SelectRequested(catalog, names) != [] {
      var r := SelectRequested(catalog, names)[0];
      SelectRequestedMembers(catalog, names, r);
    } else {
      forall i | 0 <= i < |catalog|
        ensures !Requested(catalog[i], names)
      {
        SelectRequestedMembers(catalog, names, catalog[i]);
      }
    }
  }
}
