/**
 * `makeValues`: turns the `key=value` command-line parameters of render mode
 * into the map the template is rendered against.
 */
module Values {
  import opened Wrappers
  import opened Strings

  /** The two errors `makeValues` returns. */
  datatype ValuesError =
    | MissingEquals             // a parameter without `=`
    | DuplicateKey(key: string) // a key given by two parameters

  /** The text of the Go error value. The duplicate-key message carries the
      key between the quotes that end it. */
  function Message(e: ValuesError): (text: string)
    ensures e.MissingEquals? ==> text == "= must be included"
    ensures e.DuplicateKey? ==>
      |text| >= 19 && text[..18] == "define duplicate '" &&
      text[18..|text| - 1] == e.key && text[|text| - 1] == '\''
  {
    match e
    case MissingEquals => "= must be included"
    case DuplicateKey(k) => "define duplicate '" + k + "'"
  }

  /** `len(strings.Split(p, "=")) >= 2`. */
  predicate HasEquals(p: string)
  {
    '=' in p
  }

  /** `pair[0]`: the text before the first `=` (all of `p` when it has none). */
  function Key(p: string): string
  {
    Split(p, '=')[0]
  }

  /** `pair[1]`: the text between the first and the second `=`. */
  function Value(p: string): string
    requires HasEquals(p)
  {
    Split(p, '=')[1]
  }

  /** The loop of `makeValues` from parameter `ps[0]` on, with the map `acc`
      built so far. */
  function ValuesFrom(ps: seq<string>, acc: map<string, string>): Result<map<string, string>, ValuesError>
  {
    if ps == [] then Success(acc)
    else
      var pair := Split(ps[0], '=');
      if |pair| < 2 then Failure(MissingEquals)
      else if pair[0] in acc then Failure(DuplicateKey(pair[0]))
      else ValuesFrom(ps[1..], acc[pair[0] := pair[1]])
  }

  /** `makeValues(parameters)`. */
  method MakeValues(parameters: seq<string>) returns (r: Result<map<string, string>, ValuesError>)
    ensures r == ValuesFrom(parameters, map[])
  {
    var ret: map<string, string> := map[];
    for i := 0 to |parameters|
      invariant ValuesFrom(parameters, map[]) == ValuesFrom(parameters[i..], ret)
    {
      assert parameters[i..][1..] == parameters[i + 1..];
      var pair := Split(parameters[i], '=');
      if |pair| < 2 {
        return Failure(MissingEquals);
      }
      var key := pair[0];
      var value := pair[1];
      if key in ret {
        return Failure(DuplicateKey(key));
      }
      ret := ret[key := value];
    }
    assert parameters[|parameters|..] == [];
    return Success(ret);
  }

  /** Every parameter has an `=` and no two share a key. */
  predicate WellFormed(ps: seq<string>)
  {
    && (forall i :: 0 <= i < |ps| ==> HasEquals(ps[i]))
    && (forall i, j :: 0 <= i < j < |ps| ==> Key(ps[i]) != Key(ps[j]))
  }

  /** `ps` is well formed and none of its keys is already in `acc`. */
  predicate FreshFor(ps: seq<string>, acc: map<string, string>)
  {
    WellFormed(ps) && forall i :: 0 <= i < |ps| ==> Key(ps[i]) !in acc
  }

  /** The shape of a parameter with an `=`: its key, an `=`, its value, and
      then either nothing or a second `=` with whatever follows it, which is
      dropped. Neither key nor value holds an `=`. */
  lemma KeyValueShape(p: string)
    requires HasEquals(p)
    ensures '=' !in Key(p) && '=' !in Value(p)
    ensures var k, v := |Key(p)|, |Value(p)|;
      k + 1 + v <= |p| &&
      p[..k] == Key(p) && p[k] == '=' && p[k + 1..k + 1 + v] == Value(p) &&
      (k + 1 + v == |p| || p[k + 1 + v] == '=')
  {
    var parts := Split(p, '=');
    JoinSplit(p, '=');
    if |parts| == 2 {
      assert Join(parts[1..], '=') == parts[1];
      assert p == parts[0] + ['='] + parts[1];
    } else {
      var tail := Join(parts[2..], '=');
      assert Join(parts[1..], '=') == parts[1] + ['='] + tail;
      assert p == parts[0] + ['='] + parts[1] + ['='] + tail;
    }
  }

  /** The keys of the parameters. */
  function KeySet(ps: seq<string>): (keys: set<string>)
    ensures forall i :: 0 <= i < |ps| ==> Key(ps[i]) in keys
    ensures forall k :: k in keys ==> exists i :: 0 <= i < |ps| && Key(ps[i]) == k
  {
    if ps == [] then {}
    else
      var rest := KeySet(ps[1..]);
      assert forall i :: 1 <= i < |ps| ==> ps[i] == ps[1..][i - 1];
      {Key(ps[0])} + rest
  }

  /** Well-formedness, one parameter at a time, as the loop checks it. */
  lemma FreshForFirst(ps: seq<string>, acc: map<string, string>)
    requires ps != [] && HasEquals(ps[0])
    ensures FreshFor(ps, acc) <==>
      Key(ps[0]) !in acc && FreshFor(ps[1..], acc[Key(ps[0]) := Value(ps[0])])
  {
    var acc' := acc[Key(ps[0]) := Value(ps[0])];
    assert forall i :: 1 <= i < |ps| ==> ps[i] == ps[1..][i - 1];
    if Key(ps[0]) !in acc && FreshFor(ps[1..], acc') {
      forall i, j | 0 <= i < j < |ps|
        ensures Key(ps[i]) != Key(ps[j])
      {
        if i > 0 {
          assert Key(ps[1..][i - 1]) != Key(ps[1..][j - 1]);
        } else {
          assert Key(ps[1..][j - 1]) !in acc';
        }
      }
    }
  }

  /** On parameters that are well formed and new to the map built so far, the
      loop succeeds, and the map it returns holds the old entries and one new
      entry per parameter, key to value. */
  lemma {:induction false} ValuesFromFresh(ps: seq<string>, acc: map<string, string>)
    requires FreshFor(ps, acc)
    ensures ValuesFrom(ps, acc).Success?
    ensures var m := ValuesFrom(ps, acc).value;
      && m.Keys == acc.Keys + KeySet(ps)
      && (forall k :: k in acc ==> m[k] == acc[k])
      && (forall i :: 0 <= i < |ps| ==> m[Key(ps[i])] == Value(ps[i]))
  {
    if ps != [] {
      var p := ps[0];
      FreshForFirst(ps, acc);
      var acc' := acc[Key(p) := Value(p)];
      ValuesFromFresh(ps[1..], acc');
      assert ValuesFrom(ps, acc) == ValuesFrom(ps[1..], acc');
      assert KeySet(ps) == {Key(p)} + KeySet(ps[1..]);
      var m := ValuesFrom(ps, acc).value;
      forall i | 0 <= i < |ps|
        ensures m[Key(ps[i])] == Value(ps[i])
      {
        if i > 0 { assert ps[1..][i - 1] == ps[i]; }
      }
    }
  }

  /** Distinct keys: as many keys as parameters. */
  lemma {:induction false} KeySetSize(ps: seq<string>)
    requires forall i, j :: 0 <= i < j < |ps| ==> Key(ps[i]) != Key(ps[j])
    ensures |KeySet(ps)| == |ps|
  {
    if ps != [] {
      var rest := ps[1..];
      forall i, j | 0 <= i < j < |rest|
        ensures Key(rest[i]) != Key(rest[j])
      {
        assert rest[i] == ps[i + 1] && rest[j] == ps[j + 1];
      }
      KeySetSize(rest);
      forall i | 0 <= i < |rest|
        ensures Key(rest[i]) != Key(ps[0])
      {
        assert rest[i] == ps[i + 1];
      }
      assert Key(ps[0]) !in KeySet(rest);
      assert KeySet(ps) == {Key(ps[0])} + KeySet(rest);
    }
  }

  /** The loop fails on every other list of parameters. */
  lemma {:induction false} ValuesFromNotFresh(ps: seq<string>, acc: map<string, string>)
    requires !FreshFor(ps, acc)
    ensures ValuesFrom(ps, acc).Failure?
  {
    var p := ps[0];
    if HasEquals(p) {
      FreshForFirst(ps, acc);
      if Key(p) !in acc {
        ValuesFromNotFresh(ps[1..], acc[Key(p) := Value(p)]);
      }
    }
  }

  /** The first parameter that breaks well-formedness decides the error:
      `MissingEquals` when it has no `=`. */
  lemma {:induction false} ValuesFromMissingEquals(ps: seq<string>, acc: map<string, string>, i: nat)
    requires i < |ps| && FreshFor(ps[..i], acc) && !HasEquals(ps[i])
    ensures ValuesFrom(ps, acc) == Failure(MissingEquals)
  {
    if i > 0 {
      var p := ps[0];
      assert ps[..i][0] == p;
      FreshForFirst(ps[..i], acc);
      assert ps[..i][1..] == ps[1..][..i - 1];
      assert ps[1..][i - 1] == ps[i];
      ValuesFromMissingEquals(ps[1..], acc[Key(p) := Value(p)], i - 1);
    }
  }

  /** ... and `DuplicateKey` naming its key when it repeats a key already in
      the map or given by an earlier parameter. */
  lemma {:induction false} ValuesFromDuplicateKey(ps: seq<string>, acc: map<string, string>, i: nat)
    requires i < |ps| && FreshFor(ps[..i], acc) && HasEquals(ps[i])
    requires Key(ps[i]) in acc || exists j :: 0 <= j < i && Key(ps[j]) == Key(ps[i])
    ensures ValuesFrom(ps, acc) == Failure(DuplicateKey(Key(ps[i])))
  {
    if i > 0 {
      var p := ps[0];
      assert ps[..i][0] == p;
      FreshForFirst(ps[..i], acc);
      assert ps[..i][1..] == ps[1..][..i - 1];
      assert ps[1..][i - 1] == ps[i];
      var acc' := acc[Key(p) := Value(p)];
      if Key(ps[i]) !in acc {
        var j :| 0 <= j < i && Key(ps[j]) == Key(ps[i]);
        if j > 0 { assert ps[1..][j - 1] == ps[j]; }
      }
      ValuesFromDuplicateKey(ps[1..], acc', i - 1);
    }
  }

  /** `makeValues` succeeds exactly when every parameter has an `=` and the
      keys are distinct; its map then has one entry per parameter, mapping
      the text before the first `=` to the text up to the second. */
  lemma MakeValuesSuccess(ps: seq<string>)
    ensures ValuesFrom(ps, map[]).Success? <==> WellFormed(ps)
    ensures ValuesFrom(ps, map[]).Success? ==>
      var m := ValuesFrom(ps, map[]).value;
      && |m| == |ps|
      && m.Keys == KeySet(ps)
      && (forall i :: 0 <= i < |ps| ==> m[Key(ps[i])] == Value(ps[i]))
  {
    if WellFormed(ps) {
      ValuesFromFresh(ps, map[]);
      KeySetSize(ps);
    } else {
      ValuesFromNotFresh(ps, map[]);
    }
  }

  /** A parameter without `=`, after well-formed ones, fails `makeValues`
      with "= must be included" and no map. */
  lemma MakeValuesMissingEquals(ps: seq<string>, i: nat)
    requires i < |ps| && WellFormed(ps[..i]) && !HasEquals(ps[i])
    ensures ValuesFrom(ps, map[]) == Failure(MissingEquals)
  {
    ValuesFromMissingEquals(ps, map[], i);
  }

  /** A parameter that repeats an earlier key, after well-formed ones, fails
      `makeValues` with an error naming that key instead of overwriting. */
  lemma MakeValuesDuplicateKey(ps: seq<string>, j: nat, i: nat)
    requires j < i < |ps| && WellFormed(ps[..i]) && HasEquals(ps[i])
    requires Key(ps[j]) == Key(ps[i])
    ensures ValuesFrom(ps, map[]) == Failure(DuplicateKey(Key(ps[i])))
  {
    ValuesFromDuplicateKey(ps, map[], i);
  }

  /** A parameter `key=value` with no other `=` splits into key and value. */
  lemma SplitParameter(key: string, value: string)
    requires '=' !in key && '=' !in value
    ensures Split(key + "=" + value, '=') == [key, value]
  {
    SplitJoin([key, value], '=');
    assert Join([key, value], '=') == key + "=" + value;
  }

  /** Two parameters `k1=v1 k2=v2` with different keys and no other `=`
      give exactly the two entries (as `Name=Ada Age=36` does). */
  lemma TwoParameters(k1: string, v1: string, k2: string, v2: string)
    requires '=' !in k1 && '=' !in v1 && '=' !in k2 && '=' !in v2 && k1 != k2
    ensures ValuesFrom([k1 + "=" + v1, k2 + "=" + v2], map[]) == Success(map[k1 := v1, k2 := v2])
  {
    var p1, p2 := k1 + "=" + v1, k2 + "=" + v2;
    SplitParameter(k1, v1);
    SplitParameter(k2, v2);
    assert [p1, p2][1..] == [p2];
    assert ValuesFrom([p1, p2], map[]) == ValuesFrom([p2], map[k1 := v1]);
  }

  /** `a=1 a=2` is refused with an error naming `a`. */
  lemma DuplicateArgumentsExample()
    ensures ValuesFrom(["a=1", "a=2"], map[]) == Failure(DuplicateKey("a"))
  {
    SplitJoin(["a", "1"], '=');
    assert Join(["a", "1"], '=') == "a=1";
    SplitJoin(["a", "2"], '=');
    assert Join(["a", "2"], '=') == "a=2";
    assert ["a=1", "a=2"][1..] == ["a=2"];
  }

  /** `Name` alone is refused for its missing `=`. */
  lemma MissingEqualsExample()
    ensures ValuesFrom(["Name"], map[]) == Failure(MissingEquals)
  {
    assert '=' !in "Name";
  }

  /** `k=v=rest` yields key `k` and value `v`: the text after the second `=`
      is dropped (`k=a=b` renders with `a`). */
  lemma SecondEqualsDropped(k: string, v: string, rest: string)
    requires '=' !in k && '=' !in v
    ensures var p := k + "=" + v + "=" + rest; HasEquals(p) && Key(p) == k && Value(p) == v
  {
    var p := k + "=" + v + "=" + rest;
    assert p == k + ['='] + (v + ['='] + rest);
    SplitAfterSeparator(k, '=', v + ['='] + rest);
    SplitAfterSeparator(v, '=', rest);
  }
}
