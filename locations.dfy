/**
 * The static province -> district -> administrative-post tree and the
 * lookups over it: the two JSON endpoints and the (value, label) choice
 * lists of the project form's three location dropdowns.
 *
 * The tree itself is data defined outside this model; every operation
 * takes it as a parameter. A dictionary with insertion order is an
 * association list here; `WellFormed` states that keys are unique, as a
 * dictionary guarantees.
 */
module Locations {
  import opened Wrappers

  /** One province's districts, each with its list of administrative posts. */
  type Districts = seq<(string, seq<string>)>
  /** Provinces with their districts, in insertion order. */
  type Tree = seq<(string, Districts)>
  /** A dropdown option: (submitted value, shown label). */
  type Choice = (string, string)

  const ProvincePrompt: Choice := ("", "Selecione a Província")
  const DistrictPrompt: Choice := ("", "Selecione o Distrito")
  const AdminPostPrompt: Choice := ("", "Selecione o Posto Administrativo")

  predicate UniqueKeys<V>(m: seq<(string, V)>) {
    forall i, j :: 0 <= i < j < |m| ==> m[i].0 != m[j].0
  }

  /** Keys are unique at both dictionary levels. */
  predicate WellFormed(tree: Tree) {
    UniqueKeys(tree) && forall i :: 0 <= i < |tree| ==> UniqueKeys(tree[i].1)
  }

  /** The keys of an association list, in order (`d.keys()`). */
  function Keys<V>(m: seq<(string, V)>): seq<string> {
    seq(|m|, i requires 0 <= i < |m| => m[i].0)
  }

  /** One `(x, x)` option per element, in order. */
  function Mirror(xs: seq<string>): seq<Choice> {
    seq(|xs|, i requires 0 <= i < |xs| => (xs[i], xs[i]))
  }

  /**
   * Dictionary lookup: the value under the first entry with key `k`, or
   * None exactly when no entry has that key.
   */
  function Lookup<V>(m: seq<(string, V)>, k: string): (r: Option<V>)
    ensures r.None? <==> forall i :: 0 <= i < |m| ==> m[i].0 != k
    ensures r.Some? ==> exists i :: 0 <= i < |m| && m[i] == (k, r.value) && forall j :: 0 <= j < i ==> m[j].0 != k
  {
    if |m| == 0 then None
    else if m[0].0 == k then Some(m[0].1)
    else
      var r := Lookup(m[1..], k);
      assert forall i :: 1 <= i < |m| ==> m[i] == m[1..][i - 1];
      assert r.Some? ==> exists i :: 0 <= i < |m| && m[i] == (k, r.value) && forall j :: 0 <= j < i ==> m[j].0 != k by {
        if r.Some? {
          var i :| 0 <= i < |m| - 1 && m[1..][i] == (k, r.value) && forall j :: 0 <= j < i ==> m[1..][j].0 != k;
          assert m[i + 1] == (k, r.value);
        }
      }
      r
  }

  /** With unique keys, the lookup of any entry's key finds that entry. */
  lemma LookupUnique<V>(m: seq<(string, V)>, i: nat)
    requires UniqueKeys(m) && i < |m|
    ensures Lookup(m, m[i].0) == Some(m[i].1)
  {
  }

  /**
   * `GET /api/districts/<province>`: no districts for an unknown province,
   * otherwise that province's district keys in order.
   */
  function GetDistricts(tree: Tree, province: string): (r: seq<string>)
    ensures (forall i :: 0 <= i < |tree| ==> tree[i].0 != province) ==> r == []
    ensures WellFormed(tree) ==>
      forall i :: 0 <= i < |tree| && tree[i].0 == province ==> r == Keys(tree[i].1)
  {
    match Lookup(tree, province)
    case None => []
    case Some(districts) =>
      assert WellFormed(tree) ==> forall i :: 0 <= i < |tree| && tree[i].0 == province ==> districts == tree[i].1 by {
        if WellFormed(tree) {
          forall i | 0 <= i < |tree| && tree[i].0 == province ensures districts == tree[i].1 {
            LookupUnique(tree, i);
          }
        }
      }
      Keys(districts)
  }

  /**
   * `GET /api/admin_posts/<province>/<district>`: no posts unless the
   * province is known and the district is one of its districts; otherwise
   * exactly the posts listed under that district.
   */
  function GetAdminPosts(tree: Tree, province: string, district: string): (r: seq<string>)
    ensures (forall i :: 0 <= i < |tree| ==> tree[i].0 != province) ==> r == []
    ensures WellFormed(tree) ==>
      forall i :: 0 <= i < |tree| && tree[i].0 == province ==>
        ((forall j :: 0 <= j < |tree[i].1| ==> tree[i].1[j].0 != district) ==> r == [])
    ensures WellFormed(tree) ==>
      forall i, j :: 0 <= i < |tree| && tree[i].0 == province && 0 <= j < |tree[i].1| && tree[i].1[j].0 == district ==>
        r == tree[i].1[j].1
  {
    var underProvince := match Lookup(tree, province) case Some(ds) => ds case None => [];
    var r := match Lookup(underProvince, district) case Some(posts) => posts case None => [];
    assert WellFormed(tree) ==>
      forall i, j :: 0 <= i < |tree| && tree[i].0 == province && 0 <= j < |tree[i].1| && tree[i].1[j].0 == district ==>
        r == tree[i].1[j].1 by {
      if WellFormed(tree) {
        forall i, j | 0 <= i < |tree| && tree[i].0 == province && 0 <= j < |tree[i].1| && tree[i].1[j].0 == district
          ensures r == tree[i].1[j].1
        {
          LookupUnique(tree, i);
          LookupUnique(tree[i].1, j);
        }
      }
    }
    assert WellFormed(tree) ==>
      forall i :: 0 <= i < |tree| && tree[i].0 == province ==>
        ((forall j :: 0 <= j < |tree[i].1| ==> tree[i].1[j].0 != district) ==> r == []) by {
      if WellFormed(tree) {
        forall i | 0 <= i < |tree| && tree[i].0 == province ensures underProvince == tree[i].1 {
          LookupUnique(tree, i);
        }
      }
    }
    r
  }

  /** The province dropdown: the prompt, then one `(p, p)` per province in order. */
  function ProvinceChoices(tree: Tree): (cs: seq<Choice>)
    ensures |cs| == |tree| + 1 && cs[0] == ProvincePrompt
    ensures forall i :: 0 <= i < |tree| ==> cs[i + 1] == (tree[i].0, tree[i].0)
  {
    [ProvincePrompt] + Mirror(Keys(tree))
  }

  /**
   * The district dropdown for a chosen province (empty meaning none): the
   * prompt, followed by the province's districts only when the province
   * is non-empty and known.
   */
  function DistrictChoices(tree: Tree, province: string): (cs: seq<Choice>)
    ensures |cs| >= 1 && cs[0] == DistrictPrompt
    ensures province == "" || (forall i :: 0 <= i < |tree| ==> tree[i].0 != province) ==> cs == [DistrictPrompt]
    ensures WellFormed(tree) && province != "" ==>
      forall i :: 0 <= i < |tree| && tree[i].0 == province ==> cs == [DistrictPrompt] + Mirror(Keys(tree[i].1))
  {
    var extra := if province != "" && Lookup(tree, province).Some? then Mirror(Keys(Lookup(tree, province).value)) else [];
    assert WellFormed(tree) ==> forall i :: 0 <= i < |tree| && tree[i].0 == province ==> Lookup(tree, province) == Some(tree[i].1) by {
      if WellFormed(tree) {
        forall i | 0 <= i < |tree| && tree[i].0 == province ensures Lookup(tree, province) == Some(tree[i].1) {
          LookupUnique(tree, i);
        }
      }
    }
    [DistrictPrompt] + extra
  }

  /**
   * The administrative-post dropdown: the prompt, followed by the district's
   * posts only when province and district are both non-empty and the
   * district is one of the province's districts (an unknown province
   * counts as having no districts).
   */
  function AdminPostChoices(tree: Tree, province: string, district: string): (cs: seq<Choice>)
    ensures |cs| >= 1 && cs[0] == AdminPostPrompt
    ensures province == "" || district == "" || (forall i :: 0 <= i < |tree| ==> tree[i].0 != province) ==> cs == [AdminPostPrompt]
  {
    var underProvince := match Lookup(tree, province) case Some(ds) => ds case None => [];
    var extra := if province != "" && district != "" && Lookup(underProvince, district).Some?
                 then Mirror(Lookup(underProvince, district).value) else [];
    [AdminPostPrompt] + extra
  }

  /**
   * The server-built district dropdown lists exactly what the districts
   * endpoint returns, whenever a province is chosen.
   */
  lemma DistrictChoicesMatchEndpoint(tree: Tree, province: string)
    requires province != ""
    ensures DistrictChoices(tree, province) == [DistrictPrompt] + Mirror(GetDistricts(tree, province))
  {
  }

  /**
   * The server-built post dropdown lists exactly what the posts endpoint
   * returns, whenever a province and a district are chosen: the form's
   * "district in the province's districts, or in an empty dictionary" test
   * agrees with the endpoint's "province unknown or district not under it".
   */
  lemma AdminPostChoicesMatchEndpoint(tree: Tree, province: string, district: string)
    requires province != "" && district != ""
    ensures AdminPostChoices(tree, province, district) == [AdminPostPrompt] + Mirror(GetAdminPosts(tree, province, district))
  {
  }

  /**
   * For a well-formed tree, the post dropdown of a district under the
   * province lists exactly that district's posts, in order.
   */
  lemma AdminPostChoicesOfKnownDistrict(tree: Tree, i: nat, j: nat)
    requires WellFormed(tree) && i < |tree| && j < |tree[i].1|
    requires tree[i].0 != "" && tree[i].1[j].0 != ""
    ensures AdminPostChoices(tree, tree[i].0, tree[i].1[j].0) == [AdminPostPrompt] + Mirror(tree[i].1[j].1)
  {
    LookupUnique(tree, i);
    LookupUnique(tree[i].1, j);
  }
}
