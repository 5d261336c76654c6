/** The fixed catalog of forecast time ranges the provider serves, and the checks and
    enumerations `getAromeFile` performs on it. */
module TimeRanges {
  import opened Outcomes
  import opened Strings

  /** The time ranges, in forecast order; the provider serves each as a separate file. */
  const Catalog: seq<string> := ["00H06H", "07H12H", "13H18H", "19H24H", "25H30H", "31H36H", "37H42H"]

  /** The time range the merged output is named after when nothing else is asked for. */
  const FirstRange: string := "00H06H"

  predicate NoDuplicates(xs: seq<string>)
  {
    forall i, j :: 0 <= i < j < |xs| ==> xs[i] != xs[j]
  }

  /** Python's `xs.index(x)`: the position of the first `x`, or nothing (a `ValueError`). */
  function IndexOf(xs: seq<string>, x: string): (r: Option<nat>)
    ensures r.Some? <==> x in xs
    ensures r.Some? ==> r.value < |xs| && xs[r.value] == x && x !in xs[..r.value]
  {
    if |xs| == 0 then None
    else if xs[0] == x then Some(0)
    else match IndexOf(xs[1..], x)
      case None => None
      case Some(i) =>
        assert xs[..i + 1] == [xs[0]] + xs[1..][..i];
        Some(i + 1)
  }

  /** The loop that collects ranges: every element up to and including the first `x`,
      or the whole list when `x` never appears. */
  function TakeThrough(xs: seq<string>, x: string): (r: seq<string>)
    ensures x !in xs ==> r == xs
    ensures x in xs ==> r == xs[..IndexOf(xs, x).value + 1]
  {
    if |xs| == 0 then []
    else if xs[0] == x then [xs[0]]
    else [xs[0]] + TakeThrough(xs[1..], x)
  }

  /** The message of the `ValueError` raised for a range outside the catalog: it quotes the
      received value and every authorized range. */
  function InvalidRangeMessage(max: string): (r: string)
    ensures Contains(r, max)
    ensures forall k :: 0 <= k < |Catalog| ==> Contains(r, Catalog[k])
  {
    MessageQuotes("Invalid time range passed as parameter. Received ", max,
                  " while authorized values are ", Catalog, ", ");
    "Invalid time range passed as parameter. Received " + max
      + " while authorized values are " + Join(Catalog, ", ")
  }

  /** The validation opening `getAromeFile`: the catalog position of `max`, or a `ValueError`
      whose message quotes `max` and every authorized range. */
  function ValidateTimeRange(max: string): (r: Result<nat>)
    ensures r.Ok? <==> max in Catalog
    ensures r.Ok? ==> r.value < |Catalog| && Catalog[r.value] == max
    ensures r.Err? ==> r.error.ValueError?
    ensures r.Err? ==> Contains(r.error.message, max)
    ensures r.Err? ==> forall k :: 0 <= k < |Catalog| ==> Contains(r.error.message, Catalog[k])
  {
    match IndexOf(Catalog, max)
    case Some(i) => Ok(i)
    case None => Err(ValueError(InvalidRangeMessage(max)))
  }

  /** A message made of a lead-in, a value, a bridge and a joined list quotes the value and
      every list element. */
  lemma MessageQuotes(head: string, value: string, bridge: string, xs: seq<string>, sep: string)
    ensures Contains(head + value + bridge + Join(xs, sep), value)
    ensures forall k :: 0 <= k < |xs| ==> Contains(head + value + bridge + Join(xs, sep), xs[k])
  {
    var msg := head + value + bridge + Join(xs, sep);
    assert msg[|head|..|head| + |value|] == value;
    assert OccursAt(msg, value, |head|);
    forall k | 0 <= k < |xs|
      ensures Contains(msg, xs[k])
    {
      JoinContainsEach(xs, sep, k);
      ContainsRight(head + value + bridge, Join(xs, sep), xs[k]);
    }
  }

  /** The time ranges to download for `max`: the loop over the catalog that stops after `max`. */
  function RequiredRanges(max: string): (r: seq<string>)
    ensures max !in Catalog ==> r == Catalog
    ensures max in Catalog ==> |r| == IndexOf(Catalog, max).value + 1
    ensures max in Catalog ==> r[|r| - 1] == max
    ensures max in Catalog ==> r == Catalog[..|r|]
    ensures NoDuplicates(r)
  {
    CatalogHasNoDuplicates();
    TakeThrough(Catalog, max)
  }

  lemma CatalogHasNoDuplicates()
    ensures NoDuplicates(Catalog)
  {
  }

  /** Every catalog entry is `<start>H<end>H` over two-digit hours. */
  lemma CatalogTokenShape(t: string)
    requires t in Catalog
    ensures |t| == 6 && t[2] == 'H' && t[5] == 'H'
    ensures '_' !in t && '.' !in t
    ensures t[0] in "0123" && t[1] in "0123456789"
    ensures t[3] in "0123456789" && t[4] in "0123456789"
  {
  }

  /** The range naming the merged output: `"00H" + max[3:]`. For a catalog entry it has six
      characters, starts at hour 00, keeps the entry's end hour, and is itself a catalog
      entry exactly when `max` is the first range. */
  function TargetTimeRange(max: string): (r: string)
    ensures max in Catalog ==> |r| == 6 && r[..3] == "00H" && r[3..] == max[3..]
    ensures max in Catalog ==> (r == max <==> max == FirstRange)
    ensures max in Catalog ==> (r in Catalog <==> max == FirstRange)
  {
    var r := "00H" + Drop(max, 3);
    if max in Catalog then
      assert r[..3] == "00H";
      assert r == max ==> max[..3] == "00H";
      assert r in Catalog ==> r == FirstRange by {
        if r in Catalog { OnlyFirstRangeStartsAtZero(r); }
      }
      OnlyFirstRangeStartsAtZero(max);
      r
    else
      r
  }

  lemma OnlyFirstRangeStartsAtZero(t: string)
    requires t in Catalog
    ensures t[..3] == "00H" <==> t == FirstRange
  {
    var k :| 0 <= k < |Catalog| && Catalog[k] == t;
    if t[..3] == "00H" {
      assert t[1] == '0';
      assert k == 0;
    }
  }
}
