/**
 * The response envelope helpers of eilog: `build_data` merges defaults into a
 * response array, `error` and `success` supply the failure and success
 * defaults, and `fail` puts a 500 status underneath whatever its caller gave.
 *
 * In the source, `fail` and `response` end the request with `exit`. Here each
 * pipeline stage returns a `Flow`: either the value it hands to the next stage
 * or the envelope that is sent in place of everything that would follow.
 */
module Envelopes {
  import opened PhpValues

  datatype Flow<+T> = Next(value: T) | Halt(envelope: PArray)

  const StatusKey: Key := SKey("_statuscode")
  const HeadersKey: Key := SKey("_headers")
  const CodeKey: Key := SKey("code")
  const MessageKey: Key := SKey("message")
  const SuccessKey: Key := SKey("success")

  /** A non-array payload becomes `array('message' => $data)`. */
  function AsArray(data: Value): PArray {
    if data.Arr? then data.entries else [(MessageKey, data)]
  }

  /** One step of the defaults loop: write the default only where the key is not set. */
  function WithDefault(a: PArray, d: (Key, Value)): PArray {
    if IsSet(a, d.0) then a else Put(a, d.0, d.1)
  }

  /** The defaults loop of `build_data`, run over `defaults` in order. */
  function WithDefaults(a: PArray, defaults: PArray): PArray
    decreases |defaults|
  {
    if defaults == [] then a
    else WithDefault(WithDefaults(a, defaults[..|defaults| - 1]), defaults[|defaults| - 1])
  }

  /**
   * What a key holds after the defaults are merged: the caller's value where
   * it was set or where no default exists, the default otherwise.
   */
  lemma {:induction false} WithDefaultsGet(a: PArray, defaults: PArray, k: Key)
    requires UniqueKeys(defaults)
    ensures Get(WithDefaults(a, defaults), k)
         == if IsSet(a, k) || k !in Keys(defaults) then Get(a, k) else Get(defaults, k)
    decreases |defaults|
  {
    if defaults != [] {
      var n := |defaults| - 1;
      var prefix, d := defaults[..n], defaults[n];
      assert defaults == prefix + [d];
      assert UniqueKeys(prefix);
      KeysAppend(prefix, [d]);
      GetAppend(prefix, d, k);
      WithDefaultsGet(a, prefix, k);
      WithDefaultGet(WithDefaults(a, prefix), d, k);
      if k == d.0 {
        assert k !in Keys(prefix) by {
          forall i | 0 <= i < |prefix| ensures Keys(prefix)[i] != k {
            assert defaults[i].0 != defaults[n].0;
          }
        }
      }
    }
  }

  /** One step of the loop changes at most the key it writes, and only when that key is not set. */
  lemma WithDefaultGet(r: PArray, d: (Key, Value), k: Key)
    ensures Get(WithDefault(r, d), k) == if k == d.0 && !IsSet(r, k) then d.1 else Get(r, k)
  {
    GetPut(r, d.0, d.1, k);
  }

  lemma WithDefaultsGetAll(a: PArray, defaults: PArray)
    requires UniqueKeys(defaults)
    ensures forall k ::
              Get(WithDefaults(a, defaults), k)
                == if IsSet(a, k) || k !in Keys(defaults) then Get(a, k) else Get(defaults, k)
  {
    forall k {
      WithDefaultsGet(a, defaults, k);
    }
  }

  /**
   * No key is removed and none is added beyond the defaults' own; the keys
   * already present keep their positions in front; unique keys stay unique.
   */
  lemma {:induction false} WithDefaultsKeys(a: PArray, defaults: PArray)
    requires UniqueKeys(a)
    ensures |WithDefaults(a, defaults)| >= |a|
    ensures Keys(WithDefaults(a, defaults))[..|a|] == Keys(a)
    ensures forall k :: k in Keys(WithDefaults(a, defaults)) <==> k in Keys(a) || k in Keys(defaults)
    ensures UniqueKeys(WithDefaults(a, defaults))
    decreases |defaults|
  {
    if defaults != [] {
      var n := |defaults| - 1;
      var prefix, d := defaults[..n], defaults[n];
      assert defaults == prefix + [d];
      KeysAppend(prefix, [d]);
      WithDefaultsKeys(a, prefix);
      var r := WithDefaults(a, prefix);
      if IsSet(r, d.0) {
        if d.0 !in Keys(r) {
          GetMissing(r, d.0);
        }
      } else {
        KeysPut(r, d.0, d.1);
        PutPreservesUnique(r, d.0, d.1);
        if d.0 !in Keys(r) {
          assert (Keys(r) + [d.0])[..|a|] == Keys(r)[..|a|];
        }
      }
    }
  }

  /** `build_data`: the loop that writes each missing default into the payload. */
  method BuildData(data: Value, defaults: PArray) returns (r: PArray)
    requires UniqueKeys(defaults)
    ensures r == WithDefaults(AsArray(data), defaults)
    ensures forall k ::
              Get(r, k)
                == if IsSet(AsArray(data), k) || k !in Keys(defaults) then Get(AsArray(data), k) else Get(defaults, k)
  {
    r := if data.Arr? then data.entries else [(MessageKey, data)];
    var i := 0;
    while i < |defaults|
      invariant 0 <= i <= |defaults|
      invariant r == WithDefaults(AsArray(data), defaults[..i])
    {
      var (k, v) := defaults[i];
      if !IsSet(r, k) {
        r := Put(r, k, v);
      }
      assert defaults[..i + 1][..i] == defaults[..i];
      i := i + 1;
    }
    assert defaults[..i] == defaults;
    WithDefaultsGetAll(AsArray(data), defaults);
  }

  const ErrorDefaults: PArray :=
    [(StatusKey, Str("400 Invalid Request")), (CodeKey, Str("UNKNOWN")), (SuccessKey, Bool(false))]

  const SuccessDefaults: PArray :=
    [(StatusKey, Str("200 OK")), (SuccessKey, Bool(true))]

  /** The envelope's well-known keys are five different keys. */
  lemma KeysDistinct()
    ensures StatusKey != HeadersKey && StatusKey != CodeKey && StatusKey != MessageKey && StatusKey != SuccessKey
    ensures HeadersKey != CodeKey && HeadersKey != MessageKey && HeadersKey != SuccessKey
    ensures CodeKey != MessageKey && CodeKey != SuccessKey && MessageKey != SuccessKey
  {
    assert StatusKey.name[1] != HeadersKey.name[1];
    assert StatusKey.name[0] != CodeKey.name[0] && StatusKey.name[0] != MessageKey.name[0];
    assert StatusKey.name[0] != SuccessKey.name[0];
    assert HeadersKey.name[0] != CodeKey.name[0] && HeadersKey.name[0] != MessageKey.name[0];
    assert HeadersKey.name[0] != SuccessKey.name[0];
    assert CodeKey.name[0] != MessageKey.name[0] && CodeKey.name[0] != SuccessKey.name[0];
    assert MessageKey.name[0] != SuccessKey.name[0];
  }

  /** The keys and values of the `error` and `success` defaults. */
  lemma DefaultsEntries()
    ensures UniqueKeys(ErrorDefaults) && UniqueKeys(SuccessDefaults)
    ensures Keys(ErrorDefaults) == [StatusKey, CodeKey, SuccessKey]
    ensures Keys(SuccessDefaults) == [StatusKey, SuccessKey]
    ensures Get(ErrorDefaults, StatusKey) == Str("400 Invalid Request")
    ensures Get(ErrorDefaults, CodeKey) == Str("UNKNOWN")
    ensures Get(ErrorDefaults, SuccessKey) == Bool(false)
    ensures Get(SuccessDefaults, StatusKey) == Str("200 OK")
    ensures Get(SuccessDefaults, SuccessKey) == Bool(true)
  {
    KeysDistinct();
    GetEntry(ErrorDefaults, 0);
    GetEntry(ErrorDefaults, 1);
    GetEntry(ErrorDefaults, 2);
    GetEntry(SuccessDefaults, 0);
    GetEntry(SuccessDefaults, 1);
  }

  /** `error`: status 400, code UNKNOWN and success false, unless the caller set them. */
  function Error(data: Value): (r: PArray)
    ensures Get(r, StatusKey)
         == if IsSet(AsArray(data), StatusKey) then Get(AsArray(data), StatusKey) else Str("400 Invalid Request")
    ensures Get(r, CodeKey)
         == if IsSet(AsArray(data), CodeKey) then Get(AsArray(data), CodeKey) else Str("UNKNOWN")
    ensures Get(r, SuccessKey)
         == if IsSet(AsArray(data), SuccessKey) then Get(AsArray(data), SuccessKey) else Bool(false)
    ensures forall k :: k != StatusKey && k != CodeKey && k != SuccessKey ==> Get(r, k) == Get(AsArray(data), k)
  {
    KeysDistinct();
    DefaultsEntries();
    WithDefaultsGetAll(AsArray(data), ErrorDefaults);
    WithDefaults(AsArray(data), ErrorDefaults)
  }

  /** `success`: status 200 and success true, unless the caller set them. */
  function Success(data: Value): (r: PArray)
    ensures Get(r, StatusKey)
         == if IsSet(AsArray(data), StatusKey) then Get(AsArray(data), StatusKey) else Str("200 OK")
    ensures Get(r, SuccessKey)
         == if IsSet(AsArray(data), SuccessKey) then Get(AsArray(data), SuccessKey) else Bool(true)
    ensures forall k :: k != StatusKey && k != SuccessKey ==> Get(r, k) == Get(AsArray(data), k)
  {
    KeysDistinct();
    DefaultsEntries();
    WithDefaultsGetAll(AsArray(data), SuccessDefaults);
    WithDefaults(AsArray(data), SuccessDefaults)
  }

  /** A plain-string handler result: `success($s)` is exactly these three entries. */
  lemma SuccessOfString(s: string)
    ensures Success(Str(s))
         == [(MessageKey, Str(s)), (StatusKey, Str("200 OK")), (SuccessKey, Bool(true))]
  {
    KeysDistinct();
    var a := AsArray(Str(s));
    var v1, v2 := (StatusKey, Str("200 OK")), (SuccessKey, Bool(true));
    assert SuccessDefaults[..1] == [v1] && SuccessDefaults[..1][..0] == SuccessDefaults[..0] == [];
    GetMissing(a, StatusKey);
    PutNew(a, StatusKey, v1.1);
    var a1 := a + [v1];
    assert WithDefaults(a, SuccessDefaults[..1]) == a1;
    assert Keys(a1) == [MessageKey, StatusKey];
    GetMissing(a1, SuccessKey);
    PutNew(a1, SuccessKey, v2.1);
  }

  // ---------------------------------------------------------------------
  // array_merge, as `fail` uses it.
  // ---------------------------------------------------------------------

  /** The integer keys an array holds; `array_merge` numbers them 0, 1, 2, ... */
  function IntKeyCount(a: PArray): nat {
    if a == [] then 0 else IntKeyCount(a[..|a| - 1]) + (if a[|a| - 1].0.IKey? then 1 else 0)
  }

  /** One entry of `array_merge`: a string key is assigned, an integer key renumbered and appended. */
  function MergeEntry(acc: PArray, e: (Key, Value)): PArray {
    if e.0.SKey? then Put(acc, e.0, e.1) else acc + [(IKey(IntKeyCount(acc)), e.1)]
  }

  function MergeAll(acc: PArray, b: PArray): PArray
    decreases |b|
  {
    if b == [] then acc else MergeAll(MergeEntry(acc, b[0]), b[1..])
  }

  /** `array_merge($a, $b)`: later string keys win, integer keys are renumbered. */
  function ArrayMerge(a: PArray, b: PArray): PArray {
    MergeAll(MergeAll([], a), b)
  }

  /** Under a string key, the merge holds the later array's value where it has the key. */
  lemma {:induction false} MergeAllGetString(acc: PArray, b: PArray, s: string)
    requires UniqueKeys(b)
    ensures Get(MergeAll(acc, b), SKey(s)) == if SKey(s) in Keys(b) then Get(b, SKey(s)) else Get(acc, SKey(s))
    decreases |b|
  {
    if b != [] {
      var k := SKey(s);
      var next := MergeEntry(acc, b[0]);
      assert UniqueKeys(b[1..]);
      assert Keys(b) == [b[0].0] + Keys(b[1..]);
      MergeAllGetString(next, b[1..], s);
      if k in Keys(b[1..]) {
        var i :| 0 <= i < |b[1..]| && Keys(b[1..])[i] == k;
        assert b[0].0 != b[i + 1].0;
      } else if b[0].0.SKey? {
        GetPut(acc, b[0].0, b[0].1, k);
      } else {
        GetAppend(acc, (IKey(IntKeyCount(acc)), b[0].1), k);
        if k !in Keys(acc) {
          GetMissing(acc, k);
        }
      }
    }
  }

  lemma MergeGetString(a: PArray, b: PArray, s: string)
    requires UniqueKeys(a) && UniqueKeys(b)
    ensures Get(ArrayMerge(a, b), SKey(s)) == if SKey(s) in Keys(b) then Get(b, SKey(s)) else Get(a, SKey(s))
  {
    MergeAllGetString([], a, s);
    MergeAllGetString(MergeAll([], a), b, s);
    if SKey(s) !in Keys(a) {
      GetMissing(a, SKey(s));
    }
  }

  const FailDefaults: PArray := [(StatusKey, Str("500 Internal Server Error"))]

  /** Under a string key, the merged array holds the caller's value, or the 500 default. */
  lemma FailMergeGet(data: PArray)
    requires UniqueKeys(data)
    ensures forall s ::
              Get(ArrayMerge(FailDefaults, data), SKey(s))
                == if SKey(s) == StatusKey && StatusKey !in Keys(data) then Str("500 Internal Server Error")
                   else Get(data, SKey(s))
  {
    assert Keys(FailDefaults) == [StatusKey];
    GetEntry(FailDefaults, 0);
    forall s
      ensures Get(ArrayMerge(FailDefaults, data), SKey(s))
           == if SKey(s) == StatusKey && StatusKey !in Keys(data) then Str("500 Internal Server Error")
              else Get(data, SKey(s))
    {
      MergeGetString(FailDefaults, data, s);
      if SKey(s) !in Keys(data) {
        GetMissing(data, SKey(s));
        if SKey(s) != StatusKey {
          GetMissing(FailDefaults, SKey(s));
        }
      }
    }
  }

  /**
   * `fail`: the envelope that is sent when a stage gives up. A caller-supplied
   * `_statuscode` overrides the 500 default; one supplied as null is not set
   * for `error`, which then writes its own 400 default.
   */
  function Fail(data: PArray): (r: PArray)
    requires UniqueKeys(data)
    ensures Get(r, StatusKey)
         == if StatusKey !in Keys(data) then Str("500 Internal Server Error")
            else if IsSet(data, StatusKey) then Get(data, StatusKey)
            else Str("400 Invalid Request")
    ensures Get(r, CodeKey) == if IsSet(data, CodeKey) then Get(data, CodeKey) else Str("UNKNOWN")
    ensures Get(r, SuccessKey) == if IsSet(data, SuccessKey) then Get(data, SuccessKey) else Bool(false)
    ensures forall s :: SKey(s) != StatusKey && SKey(s) != CodeKey && SKey(s) != SuccessKey
              ==> Get(r, SKey(s)) == Get(data, SKey(s))
  {
    var merged := ArrayMerge(FailDefaults, data);
    FailMergeGet(data);
    KeysDistinct();
    Error(Arr(merged))
  }

  /**
   * `fail(array('_statuscode' => $status, 'code' => $code, 'message' => $message))`,
   * the shape every failure in the pipeline has; without a status it is sent as 500.
   */
  function FailWith(status: Option<string>, code: string, message: string): (r: PArray)
    ensures Get(r, StatusKey) == Str(status.GetOr("500 Internal Server Error"))
    ensures Get(r, CodeKey) == Str(code)
    ensures Get(r, MessageKey) == Str(message)
    ensures Get(r, SuccessKey) == Bool(false)
  {
    KeysDistinct();
    var tail := [(CodeKey, Str(code)), (MessageKey, Str(message))];
    var data := if status.Some? then [(StatusKey, Str(status.value))] + tail else tail;
    assert Keys(data) == if status.Some? then [StatusKey, CodeKey, MessageKey] else [CodeKey, MessageKey];
    var offset := if status.Some? then 1 else 0;
    GetEntry(data, offset);
    GetEntry(data, offset + 1);
    if status.Some? then
      GetEntry(data, 0);
      GetMissing(data, SuccessKey);
      Fail(data)
    else
      GetMissing(data, StatusKey);
      GetMissing(data, SuccessKey);
      Fail(data)
  }
}
