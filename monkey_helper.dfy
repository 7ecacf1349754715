/**
 * The monkey records and the catalog queries of MonkeyHelper. The catalog is
 * passed in as a value; GetMonkeys gives the one the program is built with.
 */
module MonkeyHelper {
  import opened Wrappers
  import opened Strings

  /** One monkey: its name, species, a short description and ASCII art. */
  datatype Monkey = Monkey(name: string, species: string, description: string, asciiArt: string)

  /** The lookup predicate passed to FirstOrDefault: names equal ignoring case. */
  predicate NameMatches(m: Monkey, name: string) {
    EqualsIgnoreCase(m.name, name)
  }

  /** No two records share a name, ignoring case. */
  predicate DistinctNames(catalog: seq<Monkey>) {
    forall i, j :: 0 <= i < j < |catalog| ==> !NameMatches(catalog[i], catalog[j].name)
  }

  /**
   * The records the program is seeded with, in order. The longer strings are
   * written as concatenations of short pieces, the ASCII art one line at a time.
   */
  function GetMonkeys(): (catalog: seq<Monkey>)
    ensures |catalog| == 3
  {
    [ Monkey("Capuchin", "Cebus capucinus",
             "Small, intelligent " + "New World monkey " + "found in Central " + "and South America.",
             "  .-\"\"-.\n" + " /        \\\n" + "|  O  O   |\n" + "|   --    |\n" + " \\      /\n" + "  '-.__.-'"),
      Monkey("Mandrill", "Mandrillus sphinx",
             "Largest monkey " + "species, known " + "for its colorful " + "face.",
             "   .-\"\"-.\n" + "  / .===. \\\n" + "  \\/ 6 6 \\/\n" + "  ( \\___/ )\n" + "___ooo__ooo___"),
      Monkey("Howler", "Alouatta",
             "Known for loud " + "vocalizations, " + "native to " + "South America.",
             "   .-\"\"-.\n" + "  /       \\\n" + " |  o   o |\n" + " |   ^    |\n" + " |  '-'   |\n" + "  \\_____/\n") ]
  }

  /**
   * FirstOrDefault over the catalog: the earliest record whose name matches,
   * or None (null) when no record does.
   */
  function GetMonkeyByName(catalog: seq<Monkey>, name: string): (r: Option<Monkey>)
    ensures r.None? <==> forall i :: 0 <= i < |catalog| ==> !NameMatches(catalog[i], name)
    ensures r.Some? ==> exists i :: 0 <= i < |catalog| && catalog[i] == r.value && NameMatches(catalog[i], name)
                          && forall j :: 0 <= j < i ==> !NameMatches(catalog[j], name)
  {
    if catalog == [] then None
    else if NameMatches(catalog[0], name) then Some(catalog[0])
    else
      var r := GetMonkeyByName(catalog[1..], name);
      assert r.Some? ==> exists i :: 1 <= i < |catalog| && catalog[i] == r.value && NameMatches(catalog[i], name)
                          && forall j :: 0 <= j < i ==> !NameMatches(catalog[j], name) by {
        if r.Some? {
          var i :| 0 <= i < |catalog| - 1 && catalog[1..][i] == r.value && NameMatches(catalog[1..][i], name)
                   && forall j :: 0 <= j < i ==> !NameMatches(catalog[1..][j], name);
          assert forall j :: 1 <= j < i + 1 ==> !NameMatches(catalog[j], name) by {
            forall j | 1 <= j < i + 1 ensures !NameMatches(catalog[j], name) { assert catalog[j] == catalog[1..][j - 1]; }
          }
        }
      }
      r
  }

  /** A record at index i is found by any spelling of its name when names are distinct. */
  lemma GetMonkeyByNameFindsMember(catalog: seq<Monkey>, i: nat, name: string)
    requires DistinctNames(catalog)
    requires i < |catalog| && NameMatches(catalog[i], name)
    ensures GetMonkeyByName(catalog, name) == Some(catalog[i])
  {
    var r := GetMonkeyByName(catalog, name);
    var k :| 0 <= k < |catalog| && catalog[k] == r.value && NameMatches(catalog[k], name)
             && forall j :: 0 <= j < k ==> !NameMatches(catalog[j], name);
    if k > i {
      assert false;
    } else if k < i {
      assert NameMatches(catalog[k], catalog[i].name);
      assert false;
    }
  }

  /** Names that agree ignoring case find the same record. */
  lemma {:induction false} GetMonkeyByNameIgnoresCase(catalog: seq<Monkey>, name: string, other: string)
    requires EqualsIgnoreCase(name, other)
    ensures GetMonkeyByName(catalog, name) == GetMonkeyByName(catalog, other)
  {
    if catalog != [] {
      EqualsIgnoreCaseEquivalence(catalog[0].name, name, other);
      EqualsIgnoreCaseEquivalence(catalog[0].name, other, name);
      EqualsIgnoreCaseEquivalence(name, other, name);
      GetMonkeyByNameIgnoresCase(catalog[1..], name, other);
    }
  }

  /** The record at the index the random source chose. */
  function GetRandomMonkey(catalog: seq<Monkey>, index: nat): (m: Monkey)
    requires index < |catalog|
    ensures m in catalog
  {
    catalog[index]
  }

  /** Every record of the catalog is a possible random pick. */
  lemma GetRandomMonkeyReachesAll(catalog: seq<Monkey>, m: Monkey)
    requires m in catalog
    ensures exists index :: 0 <= index < |catalog| && GetRandomMonkey(catalog, index) == m
  {
    var index :| 0 <= index < |catalog| && catalog[index] == m;
    assert GetRandomMonkey(catalog, index) == m;
  }

  /** The seeded catalog: its names in order, distinct ignoring case. */
  lemma SeededCatalog()
    ensures |GetMonkeys()| == 3
    ensures GetMonkeys()[0].name == "Capuchin" && GetMonkeys()[1].name == "Mandrill" && GetMonkeys()[2].name == "Howler"
    ensures DistinctNames(GetMonkeys())
  {
    DiffersIgnoringCaseAt("Capuchin", "Mandrill", 0);
  }

  /** Looking up "capuchin" or "CAPUCHIN" in the seeded catalog finds the Capuchin record. */
  lemma SeededLookupIgnoresCase()
    ensures GetMonkeyByName(GetMonkeys(), "capuchin") == Some(GetMonkeys()[0])
    ensures GetMonkeyByName(GetMonkeys(), "CAPUCHIN") == Some(GetMonkeys()[0])
  {
    SeededCatalog();
    CapuchinSpellings();
    GetMonkeyByNameFindsMember(GetMonkeys(), 0, "capuchin");
    GetMonkeyByNameFindsMember(GetMonkeys(), 0, "CAPUCHIN");
  }

  /** A name absent from the seeded catalog is not found. */
  lemma SeededLookupMisses()
    ensures GetMonkeyByName(GetMonkeys(), "Unknown") == None
  {
    SeededCatalog();
  }

  /** No seeded record is called "Nope". */
  lemma SeededLookupMissesNope()
    ensures forall i :: 0 <= i < |GetMonkeys()| ==> !NameMatches(GetMonkeys()[i], "Nope")
  {
    SeededCatalog();
  }

  lemma CapuchinSpellings()
    ensures EqualsIgnoreCase("Capuchin", "capuchin") && EqualsIgnoreCase("Capuchin", "CAPUCHIN")
  {
  }
}
