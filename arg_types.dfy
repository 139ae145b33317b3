/** The argument types of argp.py that convert one command-line string:
    `comma_separated_ints` and `KeyValuePairsType`. */
module ArgTypes {
  import opened Wrappers
  import opened Strings
  import opened IntLiteral

  /* ---------------- comma_separated_ints ---------------- */

  /** `map(parse, pieces)` listed: `parse` applied to every piece, in order;
      None as soon as one piece does not parse. */
  function ParseInts(pieces: seq<string>, parse: string -> Option<int>): (r: Option<seq<int>>)
    ensures r.Some? <==> forall i :: 0 <= i < |pieces| ==> parse(pieces[i]).Some?
    ensures r.Some? ==> |r.value| == |pieces|
    ensures r.Some? ==> forall i :: 0 <= i < |pieces| ==> parse(pieces[i]) == Some(r.value[i])
  {
    if pieces == [] then Some([])
    else match parse(pieces[0])
      case None => None
      case Some(n) =>
        var rest := pieces[1..];
        assert forall i :: 0 < i < |pieces| ==> pieces[i] == rest[i - 1];
        match ParseInts(rest, parse)
        case None => None
        case Some(ns) => Some([n] + ns)
  }

  /** The ArgumentTypeError message of `comma_separated_ints`. */
  function NotIntsMessage(s: string): string
  {
    "`" + s + "` is not a comma separated list of ints"
  }

  /** `comma_separated_ints(s)`: one int per comma-separated piece, in
      order, or the ArgumentTypeError when some piece is not an int. */
  function CommaSeparatedInts(s: string): (r: Result<seq<int>, string>)
    ensures r.Success? <==> forall i :: 0 <= i < |Split(s, ',')| ==> ParseInt(Split(s, ',')[i]).Some?
    ensures r.Failure? ==> r.error == NotIntsMessage(s)
    ensures r.Success? ==> |r.value| == Count(s, ',') + 1
    ensures r.Success? ==> forall i :: 0 <= i < |r.value| ==> ParseInt(Split(s, ',')[i]) == Some(r.value[i])
  {
    var pieces := Split(s, ',');
    var parsed := ParseInts(pieces, ParseInt);
    assert pieces == Split(s, ',');
    assert parsed.Some? <==> forall i :: 0 <= i < |pieces| ==> ParseInt(pieces[i]).Some?;
    match parsed
    case Some(ns) => Success(ns)
    case None => Failure(NotIntsMessage(s))
  }

  /** `str(x)` of every element. */
  function ShowAll(xs: seq<int>): (r: seq<string>)
    ensures |r| == |xs| && forall i :: 0 <= i < |xs| ==> r[i] == Show(xs[i])
  {
    seq(|xs|, i requires 0 <= i < |xs| => Show(xs[i]))
  }

  /** Any non-empty list of ints, written out with commas, parses back to itself. */
  lemma CommaSeparatedIntsRoundTrip(xs: seq<int>)
    requires |xs| >= 1
    ensures CommaSeparatedInts(Join(',', ShowAll(xs))) == Success(xs)
  {
    var shown := ShowAll(xs);
    forall i | 0 <= i < |xs|
      ensures ',' !in shown[i] && ParseInt(shown[i]) == Some(xs[i])
    {
      ShowHasNoComma(xs[i]);
      ParseShow(xs[i]);
    }
    SplitJoin(shown, ',');
    var r := ParseInts(shown, ParseInt);
    assert r.Some?;
    assert r.value == xs;
  }

  /** `str(n)` holds no comma. */
  lemma ShowHasNoComma(n: int)
    ensures ',' !in Show(n)
  {
    var m := if n < 0 then -n else n;
    ShowNatIsDigitRun(m);
    if n < 0 {
      assert Show(n) == "-" + ShowNat(m);
    }
  }

  /* ---------------- KeyValuePairsType ---------------- */

  /** A converted value: an int, a float (kept as its text, since
      floating point is not modelled), or the string itself. */
  datatype Value = Int(n: int) | Float(literal: string) | Str(text: string)

  /** The ValueError of `k, v = kv.split("=")`. */
  datatype UnpackError = NotEnoughValues | TooManyValues(got: nat)

  /** `int(v)`, else `float(v)`, else `v`. `isFloat` says whether `float(v)`
      would succeed. */
  function Convert(v: string, isFloat: string -> bool): (r: Value)
    ensures r.Int? <==> ParseInt(v).Some?
    ensures r.Int? ==> ParseInt(v) == Some(r.n)
    ensures r.Float? <==> ParseInt(v).None? && isFloat(v)
    ensures r.Float? ==> r.literal == v
    ensures r.Str? ==> r.text == v
  {
    match ParseInt(v)
    case Some(n) => Int(n)
    case None => if isFloat(v) then Float(v) else Str(v)
  }

  /** `k, v = kv.split("=")`: succeeds exactly when `kv` holds one `=`, and
      then `kv` is the key, `=`, the value. */
  function Unpack(kv: string): (r: Result<(string, string), UnpackError>)
    ensures r.Success? <==> Count(kv, '=') == 1
    ensures r.Success? ==> kv == r.value.0 + "=" + r.value.1 && '=' !in r.value.0 && '=' !in r.value.1
    ensures r == Failure(NotEnoughValues) <==> Count(kv, '=') == 0
  {
    var parts := Split(kv, '=');
    if |parts| == 2 then
      assert Join('=', parts[1..]) == parts[1];
      Success((parts[0], parts[1]))
    else if |parts| < 2 then Failure(NotEnoughValues)
    else Failure(TooManyValues(|parts|))
  }

  /** `Convert` as a function value, for the dictionary fold. */
  function Converter(isFloat: string -> bool): string -> Value
  {
    v => Convert(v, isFloat)
  }

  /** The dictionary after the loop has handled `pieces` in order: the first
      piece that does not unpack stops it; otherwise each pair is stored,
      its value converted by `conv`, overwriting an earlier value under the
      same key. */
  function Pairs(pieces: seq<string>, conv: string -> Value): (r: Result<map<string, Value>, UnpackError>)
    ensures r.Failure? ==> exists i :: 0 <= i < |pieces| && Unpack(pieces[i]) == Failure(r.error)
    decreases |pieces|
  {
    if pieces == [] then Success(map[])
    else
      assert forall i :: 0 <= i < |pieces| - 1 ==> pieces[..|pieces| - 1][i] == pieces[i];
      match Pairs(pieces[..|pieces| - 1], conv)
      case Failure(e) => Failure(e)
      case Success(m) =>
        match Unpack(pieces[|pieces| - 1])
        case Failure(e) => Failure(e)
        case Success((k, v)) => Success(m[k := conv(v)])
  }

  /** `KeyValuePairsType()(s)`: split at commas and fill a dictionary. */
  method KeyValuePairs(s: string, isFloat: string -> bool) returns (r: Result<map<string, Value>, UnpackError>)
    ensures r == Pairs(Split(s, ','), Converter(isFloat))
  {
    var pieces := Split(s, ',');
    var out: map<string, Value> := map[];
    var i := 0;
    while i < |pieces|
      invariant 0 <= i <= |pieces|
      invariant Pairs(pieces[..i], Converter(isFloat)) == Success(out)
    {
      var kv := Unpack(pieces[i]);
      if kv.Failure? {
        PairsFirstError(pieces, Converter(isFloat), i);
        return Failure(kv.error);
      }
      var (k, v) := kv.value;
      PairsStep(pieces, Converter(isFloat), i, out);
      assert Converter(isFloat)(v) == Convert(v, isFloat);
      out := out[k := Convert(v, isFloat)];
      i := i + 1;
    }
    assert pieces[..i] == pieces;
    r := Success(out);
  }

  /** One more turn of the loop stores the next pair. */
  lemma PairsStep(pieces: seq<string>, conv: string -> Value, i: nat, m: map<string, Value>)
    requires i < |pieces| && Pairs(pieces[..i], conv) == Success(m) && Unpack(pieces[i]).Success?
    ensures Pairs(pieces[..i + 1], conv)
         == Success(m[Unpack(pieces[i]).value.0 := conv(Unpack(pieces[i]).value.1)])
  {
    assert pieces[..i + 1][..i] == pieces[..i];
    assert pieces[..i + 1][i] == pieces[i];
  }

  /** The key `k` is what piece `kv` stores under. */
  predicate HasKey(kv: string, k: string)
  {
    Unpack(kv).Success? && Unpack(kv).value.0 == k
  }

  /** The pieces are turned into a dictionary exactly when every one of
      them holds a single `=`. */
  lemma {:induction false} PairsSucceeds(pieces: seq<string>, conv: string -> Value)
    ensures Pairs(pieces, conv).Success? <==> forall i :: 0 <= i < |pieces| ==> Count(pieces[i], '=') == 1
    decreases |pieces|
  {
    if pieces != [] {
      var init := pieces[..|pieces| - 1];
      PairsSucceeds(init, conv);
      assert forall i :: 0 <= i < |init| ==> init[i] == pieces[i];
    }
  }

  /** The first piece without exactly one `=` decides the error: once the
      pieces before it have been stored, the whole call fails with its error. */
  lemma {:induction false} PairsFirstError(pieces: seq<string>, conv: string -> Value, j: nat)
    requires j < |pieces| && Unpack(pieces[j]).Failure?
    requires Pairs(pieces[..j], conv).Success?
    ensures Pairs(pieces, conv) == Failure(Unpack(pieces[j]).error)
    decreases |pieces|
  {
    var init := pieces[..|pieces| - 1];
    if j < |pieces| - 1 {
      assert init[j] == pieces[j] && init[..j] == pieces[..j];
      PairsFirstError(init, conv, j);
    } else {
      assert init == pieces[..j];
    }
  }

  /** The keys of the dictionary are the keys of the pieces. */
  lemma {:induction false} PairsKeys(pieces: seq<string>, conv: string -> Value, m: map<string, Value>)
    requires Pairs(pieces, conv) == Success(m)
    ensures forall k :: k in m <==> exists i :: 0 <= i < |pieces| && HasKey(pieces[i], k)
    decreases |pieces|
  {
    if pieces != [] {
      var init := pieces[..|pieces| - 1];
      var m0 := Pairs(init, conv).value;
      PairsKeys(init, conv, m0);
      assert forall i :: 0 <= i < |init| ==> init[i] == pieces[i];
      var last := |pieces| - 1;
      forall k | k in m
        ensures exists i :: 0 <= i < |pieces| && HasKey(pieces[i], k)
      {
        if k !in m0 {
          assert HasKey(pieces[last], k);
        }
      }
    }
  }

  /** A later duplicate key overwrites the earlier value: each key holds the
      value converted from the last piece that names it. */
  lemma {:induction false} PairsLastWins(pieces: seq<string>, conv: string -> Value, m: map<string, Value>, j: nat)
    requires Pairs(pieces, conv) == Success(m)
    requires j < |pieces| && Unpack(pieces[j]).Success?
    requires forall i :: j < i < |pieces| ==> !HasKey(pieces[i], Unpack(pieces[j]).value.0)
    ensures Unpack(pieces[j]).value.0 in m
    ensures m[Unpack(pieces[j]).value.0] == conv(Unpack(pieces[j]).value.1)
    decreases |pieces|
  {
    var init := pieces[..|pieces| - 1];
    var last := |pieces| - 1;
    if j < last {
      assert init[j] == pieces[j];
      assert forall i :: j < i < |init| ==> init[i] == pieces[i];
      PairsLastWins(init, conv, Pairs(init, conv).value, j);
      assert !HasKey(pieces[last], Unpack(pieces[j]).value.0);
    }
  }
}
