/**
 * functions/_episodes.ts: the fixed catalog of episodes, each with the key
 * of its audio object in storage and the file name a download gets.
 */
module Episodes {
  import opened Wrappers
  import opened Strings

  datatype Episode = Episode(id: string, title: string, r2Key: string, filename: string)

  const EPISODES: seq<Episode> := [
    Episode("ep001", "Leon Kuessner", "episodes/ep001.mp3", "FAFO_ep001_LeonKuessner.mp3"),
    Episode("ep002", "Gabriel Szeto", "episodes/ep002.mp3", "FAFO_ep002_GabrielSzeto.mp3"),
    Episode("ep003", "Will Lockwood", "episodes/ep003.mp3", "FAFO_ep003_WillLockwood.mp3"),
    Episode("ep004", "Tim Issenmann", "episodes/ep004.mp3", "FAFO_ep004_TimIssenmann.mp3"),
    Episode("ep005", "Veer Vij", "episodes/ep005.mp3", "FAFO_ep005_VeerVij.mp3")
  ]

  predicate EndsWith(s: string, suffix: string)
  {
    |suffix| <= |s| && s[|s| - |suffix|..] == suffix
  }

  /** The naming scheme: the key is `episodes/<id>.mp3`, the file name `FAFO_<id>_<...>.mp3`. */
  predicate WellNamed(e: Episode)
  {
    && e.r2Key == "episodes/" + e.id + ".mp3"
    && StartsWith(e.filename, "FAFO_" + e.id + "_")
    && EndsWith(e.filename, ".mp3")
  }

  predicate DistinctIds(catalog: seq<Episode>)
  {
    forall i, j :: 0 <= i < j < |catalog| ==> catalog[i].id != catalog[j].id
  }

  predicate DistinctKeys(catalog: seq<Episode>)
  {
    forall i, j :: 0 <= i < j < |catalog| ==> catalog[i].r2Key != catalog[j].r2Key
  }

  function Ids(catalog: seq<Episode>): seq<string>
  {
    seq(|catalog|, i requires 0 <= i < |catalog| => catalog[i].id)
  }

  /** `catalog.find(e => e.id === id)`: the first episode with that id. */
  function FindById(catalog: seq<Episode>, id: string): (r: Option<Episode>)
    ensures r.Some? ==> r.value in catalog && r.value.id == id
    ensures r.None? <==> forall i :: 0 <= i < |catalog| ==> catalog[i].id != id
    ensures r.Some? ==> exists i :: 0 <= i < |catalog| && r.value == catalog[i] && forall j :: 0 <= j < i ==> catalog[j].id != id
  {
    if catalog == [] then None
    else if catalog[0].id == id then Some(catalog[0])
    else
      var r := FindById(catalog[1..], id);
      assert forall i :: 1 <= i < |catalog| ==> catalog[i] == catalog[1..][i - 1];
      r
  }

  /** With distinct ids, looking an episode's id up finds that very episode. */
  lemma {:induction false} FindByIdUnique(catalog: seq<Episode>, i: nat)
    requires DistinctIds(catalog) && i < |catalog|
    ensures FindById(catalog, catalog[i].id) == Some(catalog[i])
  {
    if i > 0 {
      assert catalog[0].id != catalog[i].id;
      assert catalog[1..][i - 1] == catalog[i];
      FindByIdUnique(catalog[1..], i - 1);
    }
  }

  /** The catalog holds five episodes, `ep001` to `ep005` in that order. */
  lemma CatalogIds()
    ensures Ids(EPISODES) == ["ep001", "ep002", "ep003", "ep004", "ep005"]
  {
  }

  /** No two catalog entries share an id or a storage key. */
  lemma CatalogDistinct()
    ensures DistinctIds(EPISODES) && DistinctKeys(EPISODES)
  {
    forall i, j | 0 <= i < j < |EPISODES| ensures EPISODES[i].id != EPISODES[j].id {
      assert EPISODES[i].id[4] != EPISODES[j].id[4];
    }
    forall i, j | 0 <= i < j < |EPISODES| ensures EPISODES[i].r2Key != EPISODES[j].r2Key {
      assert EPISODES[i].r2Key[13] != EPISODES[j].r2Key[13];
    }
  }

  /** An entry named `FAFO_<id>_<name>.mp3` and keyed `episodes/<id>.mp3` follows the scheme. */
  lemma WellNamedEntry(id: string, title: string, name: string)
    ensures WellNamed(Episode(id, title, "episodes/" + id + ".mp3", "FAFO_" + id + "_" + name + ".mp3"))
  {
    var f := "FAFO_" + id + "_" + name + ".mp3";
    assert f[..|"FAFO_" + id + "_"|] == "FAFO_" + id + "_";
    assert f[|f| - 4..] == ".mp3";
  }

  lemma Ep001WellNamed()
    ensures WellNamed(EPISODES[0])
  {
    WellNamedEntry("ep001", "Leon Kuessner", "LeonKuessner");
  }

  lemma Ep002WellNamed()
    ensures WellNamed(EPISODES[1])
  {
    WellNamedEntry("ep002", "Gabriel Szeto", "GabrielSzeto");
  }

  lemma Ep003WellNamed()
    ensures WellNamed(EPISODES[2])
  {
    WellNamedEntry("ep003", "Will Lockwood", "WillLockwood");
  }

  lemma Ep004WellNamed()
    ensures WellNamed(EPISODES[3])
  {
    WellNamedEntry("ep004", "Tim Issenmann", "TimIssenmann");
  }

  lemma Ep005WellNamed()
    ensures WellNamed(EPISODES[4])
  {
    WellNamedEntry("ep005", "Veer Vij", "VeerVij");
  }

  /** Every catalog entry follows the naming scheme. */
  lemma CatalogWellNamed()
    ensures forall i :: 0 <= i < |EPISODES| ==> WellNamed(EPISODES[i])
  {
    Ep001WellNamed();
    Ep002WellNamed();
    Ep003WellNamed();
    Ep004WellNamed();
    Ep005WellNamed();
  }

  /** Every catalog id is found, and it is found uniquely. */
  lemma CatalogLookup(i: nat)
    requires i < |EPISODES|
    ensures FindById(EPISODES, EPISODES[i].id) == Some(EPISODES[i])
  {
    CatalogDistinct();
    FindByIdUnique(EPISODES, i);
  }
}
