/** The `--dimensions` / `--divisor-dimensions` argument parser: a string of the
    form `key=value[,key=value...]` becomes a map from dimension name to value. */
module Dimensions {
  import opened Wrappers
  import opened Text

  type DimensionMap = map<string, string>

  /** The parser raises an index error on the first pair that has no `=`. */
  datatype ParseError = PairWithoutEquals(pair: string)

  /** Segment 0 of a pair split on `=`: the text before the first `=`. */
  function Key(pair: string): string
  {
    Split(pair, '=')[0]
  }

  /** Segment 1 of a pair split on `=`: the text between the first and the
      second `=`; anything after a second `=` is dropped. */
  function Value(pair: string): string
    requires '=' in pair
  {
    Split(pair, '=')[1]
  }

  /** No pair after position `i` has the same key as the pair at `i`. */
  predicate LastWithKey(pairs: seq<string>, i: nat)
    requires i < |pairs|
  {
    forall j :: i < j < |pairs| ==> Key(pairs[j]) != Key(pairs[i])
  }

  /** Every pair carries an `=` and so splits into a key and a value. */
  predicate EveryPairHasEquals(pairs: seq<string>)
  {
    forall i :: 0 <= i < |pairs| ==> '=' in pairs[i]
  }

  /** The loop over the comma-separated pairs: each pair is split on `=` and
      its key is (re)assigned in the accumulated map, so later keys overwrite
      earlier ones; a pair without `=` stops the loop with an error. */
  function ParsePairs(pairs: seq<string>, acc: DimensionMap): Result<DimensionMap, ParseError>
    decreases |pairs|
  {
    if |pairs| == 0 then
      Success(acc)
    else
      var kv := Split(pairs[0], '=');
      if |kv| < 2 then
        Failure(PairWithoutEquals(pairs[0]))
      else
        ParsePairs(pairs[1..], acc[kv[0] := kv[1]])
  }

  /** The loop completes exactly when every pair contains `=`; otherwise it
      reports the first pair that does not. */
  lemma {:induction false} ParsePairsOutcome(pairs: seq<string>, acc: DimensionMap)
    ensures ParsePairs(pairs, acc).Success? <==> EveryPairHasEquals(pairs)
    ensures var r := ParsePairs(pairs, acc);
      r.Failure? ==>
        exists i :: 0 <= i < |pairs| && r.error == PairWithoutEquals(pairs[i]) && '=' !in pairs[i]
          && forall j :: 0 <= j < i ==> '=' in pairs[j]
    decreases |pairs|
  {
    if |pairs| > 0 && '=' in pairs[0] {
      var kv := Split(pairs[0], '=');
      ParsePairsOutcome(pairs[1..], acc[kv[0] := kv[1]]);
      var r := ParsePairs(pairs, acc);
      if r.Failure? {
        var i :| 0 <= i < |pairs[1..]| && r.error == PairWithoutEquals(pairs[1..][i]) && '=' !in pairs[1..][i]
          && forall j :: 0 <= j < i ==> '=' in pairs[1..][j];
        assert r.error == PairWithoutEquals(pairs[i + 1]);
      }
    }
  }

  /** The keys of all pairs, as a set. */
  function KeysOf(pairs: seq<string>): set<string>
  {
    set i | 0 <= i < |pairs| :: Key(pairs[i])
  }

  /** The keys of a non-empty list are the first key and the keys of the rest. */
  lemma KeysOfCons(pairs: seq<string>)
    requires |pairs| > 0
    ensures KeysOf(pairs) == {Key(pairs[0])} + KeysOf(pairs[1..])
  {
    forall k | k in KeysOf(pairs)
      ensures k in {Key(pairs[0])} + KeysOf(pairs[1..])
    {
      var i :| 0 <= i < |pairs| && k == Key(pairs[i]);
      if i > 0 {
        assert k == Key(pairs[1..][i - 1]);
      }
    }
    forall k | k in KeysOf(pairs[1..])
      ensures k in KeysOf(pairs)
    {
      var i :| 0 <= i < |pairs[1..]| && k == Key(pairs[1..][i]);
      assert k == Key(pairs[i + 1]);
    }
  }

  /** On success the key set is the initial one plus the key of every pair. */
  lemma {:induction false} ParsePairsKeys(pairs: seq<string>, acc: DimensionMap)
    requires ParsePairs(pairs, acc).Success?
    ensures ParsePairs(pairs, acc).value.Keys == acc.Keys + KeysOf(pairs)
    decreases |pairs|
  {
    if |pairs| > 0 {
      var kv := Split(pairs[0], '=');
      ParsePairsKeys(pairs[1..], acc[kv[0] := kv[1]]);
      KeysOfCons(pairs);
    }
  }

  /** On success a key no pair mentions keeps its initial value. */
  lemma {:induction false} ParsePairsKeepsOthers(pairs: seq<string>, acc: DimensionMap, k: string)
    requires ParsePairs(pairs, acc).Success?
    requires k in acc
    requires forall i :: 0 <= i < |pairs| ==> Key(pairs[i]) != k
    ensures k in ParsePairs(pairs, acc).value
    ensures ParsePairs(pairs, acc).value[k] == acc[k]
    decreases |pairs|
  {
    if |pairs| > 0 {
      var kv := Split(pairs[0], '=');
      assert Key(pairs[0]) != k;
      forall i | 0 <= i < |pairs[1..]|
        ensures Key(pairs[1..][i]) != k
      {
        assert pairs[1..][i] == pairs[i + 1];
      }
      ParsePairsKeepsOthers(pairs[1..], acc[kv[0] := kv[1]], k);
    }
  }

  /** On success a key maps to the value of the last pair that names it. */
  lemma {:induction false} ParsePairsLastWins(pairs: seq<string>, acc: DimensionMap, i: nat)
    requires ParsePairs(pairs, acc).Success?
    requires i < |pairs| && LastWithKey(pairs, i)
    ensures '=' in pairs[i]
    ensures Key(pairs[i]) in ParsePairs(pairs, acc).value
    ensures ParsePairs(pairs, acc).value[Key(pairs[i])] == Value(pairs[i])
    decreases |pairs|
  {
    ParsePairsOutcome(pairs, acc);
    var kv := Split(pairs[0], '=');
    var acc' := acc[kv[0] := kv[1]];
    if i == 0 {
      forall j | 0 <= j < |pairs[1..]|
        ensures Key(pairs[1..][j]) != Key(pairs[0])
      {
        assert pairs[1..][j] == pairs[j + 1];
      }
      ParsePairsKeepsOthers(pairs[1..], acc', Key(pairs[0]));
    } else {
      assert LastWithKey(pairs[1..], i - 1) by {
        forall j | i - 1 < j < |pairs[1..]|
          ensures Key(pairs[1..][j]) != Key(pairs[1..][i - 1])
        {
          assert pairs[1..][j] == pairs[j + 1];
        }
      }
      ParsePairsLastWins(pairs[1..], acc', i - 1);
    }
  }

  /** Parses a dimension string: split on `,`, then fold the pairs into an
      initially empty map. */
  function Parse(values: string): Result<DimensionMap, ParseError>
  {
    ParsePairs(Split(values, ','), map[])
  }

  /** Parsing succeeds exactly when every comma-separated pair has an `=`;
      a failure names the first pair without one. */
  lemma ParseOutcome(values: string)
    ensures var pairs := Split(values, ',');
      Parse(values).Success? <==> EveryPairHasEquals(pairs)
    ensures var pairs := Split(values, ','); var r := Parse(values);
      r.Failure? ==>
        exists i :: 0 <= i < |pairs| && r.error == PairWithoutEquals(pairs[i]) && '=' !in pairs[i]
          && forall j :: 0 <= j < i ==> '=' in pairs[j]
  {
    ParsePairsOutcome(Split(values, ','), map[]);
  }

  /** A successful parse has the keys of the pairs and nothing else, and binds
      each key to the value of the last pair naming it. */
  lemma ParseMeaning(values: string)
    requires Parse(values).Success?
    ensures var pairs := Split(values, ',');
      Parse(values).value.Keys == KeysOf(pairs)
    ensures var pairs := Split(values, ',');
      forall i :: 0 <= i < |pairs| && LastWithKey(pairs, i) ==>
        '=' in pairs[i] && Parse(values).value[Key(pairs[i])] == Value(pairs[i])
  {
    var pairs := Split(values, ',');
    var m := Parse(values).value;
    ParsePairsKeys(pairs, map[]);
    forall i | 0 <= i < |pairs| && LastWithKey(pairs, i)
      ensures '=' in pairs[i] && m[Key(pairs[i])] == Value(pairs[i])
    {
      ParsePairsLastWins(pairs, map[], i);
    }
  }

  /** A key is exactly the text before the first `=` of its pair, and a value
      the text between that `=` and the next one (or the end of the pair). */
  lemma KeyAndValueOfPair(pair: string, i: nat)
    requires i < |pair| && pair[i] == '='
    requires forall j :: 0 <= j < i ==> pair[j] != '='
    ensures Key(pair) == pair[..i]
    ensures var v := Value(pair);
      && i + 1 + |v| <= |pair|
      && v == pair[i + 1..i + 1 + |v|]
      && '=' !in v
      && (i + 1 + |v| == |pair| || pair[i + 1 + |v|] == '=')
  {
    SplitFirstTwoParts(pair, '=', i);
  }

  /** The empty argument splits into one empty pair, which has no `=`. */
  lemma ParseEmptyFails()
    ensures Parse("") == Failure(PairWithoutEquals(""))
  {
    assert Split("", ',') == [""];
    assert Split("", '=') == [""];
  }

  /** A dimension as the user writes it on the command line. */
  datatype Dimension = Dimension(name: string, value: string)

  /** The `name=value` text of each dimension. */
  function RenderPairs(ds: seq<Dimension>): (pairs: seq<string>)
    ensures |pairs| == |ds|
  {
    seq(|ds|, i requires 0 <= i < |ds| => ds[i].name + "=" + ds[i].value)
  }

  /** The `name=value[,name=value...]` argument for a list of dimensions. */
  function Render(ds: seq<Dimension>): string
    requires |ds| >= 1
  {
    Join(RenderPairs(ds), ',')
  }

  /** Neither the name nor the value contains a separator character. */
  predicate Plain(d: Dimension)
  {
    ',' !in d.name && '=' !in d.name && ',' !in d.value && '=' !in d.value
  }

  /** A single rendered pair splits back into its name and value. */
  lemma RenderedPairSplits(d: Dimension)
    requires Plain(d)
    ensures '=' in d.name + "=" + d.value
    ensures Key(d.name + "=" + d.value) == d.name
    ensures Value(d.name + "=" + d.value) == d.value
  {
    assert Join([d.name, d.value], '=') == d.name + "=" + d.value;
    SplitJoin([d.name, d.value], '=');
  }

  /** Each rendered pair is separator-free and splits back on `=`. */
  lemma RenderPairsSplit(ds: seq<Dimension>)
    requires forall i :: 0 <= i < |ds| ==> Plain(ds[i])
    ensures forall i :: 0 <= i < |ds| ==> ',' !in RenderPairs(ds)[i]
    ensures forall i :: 0 <= i < |ds| ==>
      '=' in RenderPairs(ds)[i] && Key(RenderPairs(ds)[i]) == ds[i].name && Value(RenderPairs(ds)[i]) == ds[i].value
  {
    var pairs := RenderPairs(ds);
    forall i | 0 <= i < |ds|
      ensures ',' !in pairs[i]
      ensures '=' in pairs[i] && Key(pairs[i]) == ds[i].name && Value(pairs[i]) == ds[i].value
    {
      assert pairs[i] == ds[i].name + "=" + ds[i].value;
      RenderedPairSplits(ds[i]);
    }
  }

  /** The keys of the rendered pairs are the dimension names. */
  lemma RenderedKeys(ds: seq<Dimension>)
    requires forall i :: 0 <= i < |ds| ==> Plain(ds[i])
    ensures KeysOf(RenderPairs(ds)) == set i | 0 <= i < |ds| :: ds[i].name
  {
    RenderPairsSplit(ds);
  }

  /** The last dimension with a name renders to the last pair with that key. */
  lemma RenderedLastWithKey(ds: seq<Dimension>, i: nat)
    requires forall i :: 0 <= i < |ds| ==> Plain(ds[i])
    requires i < |ds| && forall j :: i < j < |ds| ==> ds[j].name != ds[i].name
    ensures LastWithKey(RenderPairs(ds), i)
  {
    RenderPairsSplit(ds);
  }

  /** Round trip: rendering a non-empty list of plain dimensions and parsing
      the text back succeeds, yields exactly the names as keys, and binds each
      name to the value of its last occurrence in the list. */
  lemma ParseRender(ds: seq<Dimension>)
    requires |ds| >= 1
    requires forall i :: 0 <= i < |ds| ==> Plain(ds[i])
    ensures Parse(Render(ds)).Success?
    ensures Parse(Render(ds)).value.Keys == set i | 0 <= i < |ds| :: ds[i].name
    ensures forall i :: 0 <= i < |ds| && (forall j :: i < j < |ds| ==> ds[j].name != ds[i].name) ==>
      Parse(Render(ds)).value[ds[i].name] == ds[i].value
  {
    var pairs := RenderPairs(ds);
    RenderPairsSplit(ds);
    ParseJoined(Render(ds), pairs);
    ParsePairsOutcome(pairs, map[]);
    var m := ParsePairs(pairs, map[]).value;
    ParsePairsKeys(pairs, map[]);
    RenderedKeys(ds);
    forall i | 0 <= i < |ds| && (forall j :: i < j < |ds| ==> ds[j].name != ds[i].name)
      ensures m[ds[i].name] == ds[i].value
    {
      RenderedLastWithKey(ds, i);
      ParsePairsLastWins(pairs, map[], i);
    }
  }

  /** Parsing a joined list of comma-free pairs runs the loop on exactly those pairs. */
  lemma ParseJoined(values: string, pairs: seq<string>)
    requires |pairs| >= 1 && forall i :: 0 <= i < |pairs| ==> ',' !in pairs[i]
    requires Join(pairs, ',') == values
    ensures Parse(values) == ParsePairs(pairs, map[])
  {
    SplitJoin(pairs, ',');
  }

  /** A pair with exactly one `=` splits into the text around it. */
  lemma SplitPlainPair(pair: string, k: string, v: string)
    requires '=' !in k && '=' !in v && pair == k + "=" + v
    ensures Split(pair, '=') == [k, v]
  {
    assert Join([k, v], '=') == pair;
    SplitJoin([k, v], '=');
  }

  /** Two plain pairs parse to the first binding updated by the second, so a
      repeated name keeps the second value. */
  lemma ParseTwoPairs(d: Dimension, e: Dimension)
    requires Plain(d) && Plain(e)
    ensures Parse(d.name + "=" + d.value + "," + e.name + "=" + e.value)
      == Success(map[d.name := d.value][e.name := e.value])
  {
    var p, q := d.name + "=" + d.value, e.name + "=" + e.value;
    assert Join([p, q], ',') == d.name + "=" + d.value + "," + e.name + "=" + e.value;
    ParseJoined(d.name + "=" + d.value + "," + e.name + "=" + e.value, [p, q]);
    SplitPlainPair(p, d.name, d.value);
    SplitPlainPair(q, e.name, e.value);
    assert ParsePairs([p, q], map[]) == ParsePairs([q], map[d.name := d.value]);
  }

  /** An argument that is a single pair parses to a one-entry map. */
  lemma ParseSinglePair(pair: string)
    requires ',' !in pair && '=' in pair
    ensures Parse(pair) == Success(map[Key(pair) := Value(pair)])
  {
    ParseJoined(pair, [pair]);
    assert ParsePairs([pair], map[]) == ParsePairs([], map[Key(pair) := Value(pair)]);
  }

  /** A single pair whose first two `=`-segments are a name and a value
      parses to that one dimension. */
  lemma ParseSingleDimension(d: Dimension, pair: string)
    requires ',' !in pair && '=' in pair
    requires Split(pair, '=')[0] == d.name && Split(pair, '=')[1] == d.value
    ensures Parse(pair) == Success(map[d.name := d.value])
  {
    ParseSinglePair(pair);
  }

  /** `k=v=w` parses to {k: v}: the text after the second `=` is dropped. */
  lemma ParseDropsAfterSecondEquals(d: Dimension, rest: string)
    requires Plain(d) && ',' !in rest
    ensures Parse(d.name + "=" + (d.value + "=" + rest)) == Success(map[d.name := d.value])
  {
    var after := d.value + "=" + rest;
    var pair := d.name + "=" + after;
    assert ',' !in after;
    assert ',' !in pair;
    SplitCons(d.name, '=', after);
    SplitCons(d.value, '=', rest);
    ParseSingleDimension(d, pair);
  }

  /** A pair without `=` fails the whole argument, even after a good pair. */
  lemma ParseMissingEqualsFails(d: Dimension, bad: string)
    requires Plain(d) && ',' !in bad && '=' !in bad
    ensures Parse(d.name + "=" + d.value + "," + bad) == Failure(PairWithoutEquals(bad))
  {
    var p := d.name + "=" + d.value;
    assert Join([p, bad], ',') == d.name + "=" + d.value + "," + bad;
    ParseJoined(d.name + "=" + d.value + "," + bad, [p, bad]);
    SplitPlainPair(p, d.name, d.value);
    assert ParsePairs([p, bad], map[]) == ParsePairs([bad], map[d.name := d.value]);
  }
}
