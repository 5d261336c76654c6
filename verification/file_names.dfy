/** `_createAromeFileName`: where a file for a given parameter map is stored. */
module FileNames {
  import opened Outcomes
  import opened Strings
  import opened Parameters

  /** The folder under the home directory that receives every file. */
  const Folder: string := "\\Downloads\\MeteoFrance\\"

  const Extension: string := ".grib2"

  /** The keys the name is built from, in the order they are looked up. */
  const NameKeys: seq<string> := ["model", "referencetime", "grid", "package", "time"]

  predicate HasNameKeys(p: Params)
  {
    "model" in p && "referencetime" in p && "grid" in p && "package" in p && "time" in p
  }

  lemma NameKeysListed(p: Params)
    ensures HasNameKeys(p) <==> forall i :: 0 <= i < |NameKeys| ==> NameKeys[i] in p
  {
    if HasNameKeys(p) {
      forall i | 0 <= i < |NameKeys| ensures NameKeys[i] in p {
        assert NameKeys[i] in {"model", "referencetime", "grid", "package", "time"};
      }
    } else {
      assert NameKeys[0] == "model" && NameKeys[1] == "referencetime" && NameKeys[2] == "grid";
      assert NameKeys[3] == "package" && NameKeys[4] == "time";
    }
  }

  /** The position of the first key of `keys` missing from `p`, if any. */
  function FirstMissing(p: Params, keys: seq<string>): (r: Option<nat>)
    ensures r.None? <==> forall i :: 0 <= i < |keys| ==> keys[i] in p
    ensures r.Some? ==> r.value < |keys| && keys[r.value] !in p
    ensures r.Some? ==> forall i :: 0 <= i < r.value ==> keys[i] in p
  {
    if |keys| == 0 then None
    else if keys[0] !in p then Some(0)
    else match FirstMissing(p, keys[1..])
      case None => None
      case Some(i) => Some(i + 1)
  }

  /** Everything in front of the time range: home, folder, model, the reference time without
      `:` and `Z`, the grid without `.`, and the package, each field followed by `_`. */
  function NamePrefix(p: Params, home: string): string
    requires HasNameKeys(p)
  {
    var time := RemoveChar(RemoveChar(p["referencetime"], ':'), 'Z');
    home + Folder + (p["model"] + "_" + time + "_" + RemoveChar(p["grid"], '.') + "_" + p["package"] + "_")
  }

  /** The full path of the file for `p`: a `KeyError` for the first name key `p` lacks, and
      otherwise the name prefix followed by the time range and `.grib2`. */
  function CreateFileName(p: Params, home: string): (r: Result<string>)
    ensures r.Ok? <==> HasNameKeys(p)
    ensures r.Err? ==> exists i :: (0 <= i < |NameKeys| && r.error == KeyError(NameKeys[i])
      && NameKeys[i] !in p && forall j :: 0 <= j < i ==> NameKeys[j] in p)
    ensures r.Ok? ==> r.value == NamePrefix(p, home) + p["time"] + Extension
  {
    NameKeysListed(p);
    match FirstMissing(p, NameKeys)
    case Some(i) =>
      assert NameKeys[i] !in p;
      Err(KeyError(NameKeys[i]))
    case None => Ok(JoinFields(p, home))
  }

  /** The path assembled from a map that holds every name key: the home directory, then
      `\\Downloads\\MeteoFrance\\` (`Folder`), then the `_`-separated fields. */
  function JoinFields(p: Params, home: string): (path: string)
    requires HasNameKeys(p)
    ensures path == NamePrefix(p, home) + p["time"] + Extension
  {
    var time := ReplaceAll(ReplaceAll(p["referencetime"], ":", ""), "Z", "");
    var grid := ReplaceAll(p["grid"], ".", "");
    var stem := p["model"] + "_" + time + "_" + grid + "_" + p["package"] + "_";
    assert time == RemoveChar(RemoveChar(p["referencetime"], ':'), 'Z') by {
      ReplaceCharByNothing(p["referencetime"], ':');
      ReplaceCharByNothing(ReplaceAll(p["referencetime"], ":", ""), 'Z');
    }
    assert grid == RemoveChar(p["grid"], '.') by {
      ReplaceCharByNothing(p["grid"], '.');
    }
    var fileName := stem + p["time"] + Extension;
    home + Folder + fileName
  }

  /** For a day without `:` or `Z`, the reference time appears in the name as `<day>T000000`. */
  lemma ReferenceTimeInName(day: string)
    requires ':' !in day && 'Z' !in day
    ensures RemoveChar(RemoveChar(ReferenceTime(day), ':'), 'Z') == day + "T000000"
  {
    var hours := day + "T00";
    var minutes := hours + [':'] + "00";
    var seconds := [':'] + "00Z";
    assert ReferenceTime(day) == minutes + seconds;
    RemoveCharAppend(minutes, seconds, ':');
    RemoveBetween(hours, "00", ':');
    assert seconds == "" + [':'] + "00Z";
    RemoveBetween("", "00Z", ':');
    var kept := day + "T000000";
    assert RemoveChar(ReferenceTime(day), ':') == kept + ['Z'] + "";
    RemoveBetween(kept, "", 'Z');
    assert kept + "" == kept;
  }

  /** The documented name format: a run for a day without `:` or `Z` and the default model,
      grid and package names its file `AROME_<day>T000000_0025_SP1_<range>.grib2` in the
      download folder. */
  lemma RunFileName(day: string, max: string, home: string)
    requires ':' !in day && 'Z' !in day
    ensures CreateFileName(RunParameters(day, max), home)
         == Ok(home + Folder + ("AROME_" + day + "T000000_0025_SP1_") + (max + ".grib2"))
  {
    var prefix := home + Folder + ("AROME_" + day + "T000000_0025_SP1_");
    RunHasNameKeys(day, max);
    RunNamePrefix(day, max, home);
    NameOfPrefix(RunParameters(day, max), home, prefix);
    NameEnds(prefix, max);
  }

  /** The fields of a run's parameter map that its file name is made of. */
  lemma RunHasNameKeys(day: string, max: string)
    ensures HasNameKeys(RunParameters(day, max)) && RunParameters(day, max)["time"] == max
    ensures RunParameters(day, max)["model"] == "AROME" && RunParameters(day, max)["package"] == "SP1"
    ensures RunParameters(day, max)["grid"] == "0.025"
    ensures RunParameters(day, max)["referencetime"] == ReferenceTime(day)
  {
  }

  lemma NameEnds(prefix: string, max: string)
    ensures prefix + max + Extension == prefix + (max + ".grib2")
  {
  }

  lemma NameOfPrefix(p: Params, home: string, prefix: string)
    requires HasNameKeys(p) && NamePrefix(p, home) == prefix
    ensures CreateFileName(p, home) == Ok(prefix + p["time"] + Extension)
  {
  }

  lemma RunNamePrefix(day: string, max: string, home: string)
    requires ':' !in day && 'Z' !in day
    ensures NamePrefix(RunParameters(day, max), home) == home + Folder + ("AROME_" + day + "T000000_0025_SP1_")
  {
    var p := RunParameters(day, max);
    RunHasNameKeys(day, max);
    ReferenceTimeInName(day);
    GridInName(p["grid"]);
    FieldsJoined(day);
  }

  lemma GridInName(grid: string)
    requires grid == "0.025"
    ensures RemoveChar(grid, '.') == "0025"
  {
    assert grid == "0" + ['.'] + "025";
    RemoveBetween("0", "025", '.');
  }

  lemma FieldsJoined(day: string)
    ensures "AROME" + "_" + (day + "T000000") + "_" + "0025" + "_" + "SP1" + "_"
         == "AROME_" + day + "T000000_0025_SP1_"
  {
    assert "AROME" + "_" == "AROME_";
    assert "T000000" + "_" + "0025" + "_" + "SP1" + "_" == "T000000_0025_SP1_";
  }

  /** The prefix depends only on the model, reference time, grid and package fields. */
  lemma SameFieldsSamePrefix(p: Params, q: Params, home: string)
    requires HasNameKeys(p) && HasNameKeys(q)
    requires p["model"] == q["model"] && p["referencetime"] == q["referencetime"]
    requires p["grid"] == q["grid"] && p["package"] == q["package"]
    ensures NamePrefix(p, home) == NamePrefix(q, home)
  {
  }

  /** Two maps that agree on everything but the time range name different files exactly
      when their time ranges differ. */
  lemma NamesDifferByTime(p: Params, q: Params, home: string)
    requires HasNameKeys(p) && HasNameKeys(q)
    requires p["model"] == q["model"] && p["referencetime"] == q["referencetime"]
    requires p["grid"] == q["grid"] && p["package"] == q["package"]
    ensures CreateFileName(p, home).value == CreateFileName(q, home).value <==> p["time"] == q["time"]
  {
    var x := NamePrefix(p, home);
    assert NamePrefix(q, home) == x;
    var a := CreateFileName(p, home).value;
    var b := CreateFileName(q, home).value;
    if a == b {
      assert a[|x|..|a| - |Extension|] == p["time"];
      assert b[|x|..|b| - |Extension|] == q["time"];
    }
  }
}
