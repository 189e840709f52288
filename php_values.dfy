/**
 * PHP values and ordered arrays, as far as the request pipeline of eilog
 * uses them. A PHP array is an ordered list of key/value entries whose keys
 * are unique; `isset($a[$k])` holds when the key is present with a non-null
 * value, and `$a[$k] = $v` replaces an existing entry in place or appends a
 * new one at the end.
 */
module PhpValues {

  datatype Option<+T> = None | Some(value: T) {
    function GetOr(default: T): T {
      if Some? then value else default
    }
  }

  /** An array key: PHP arrays are keyed by strings or by integers. */
  datatype Key = SKey(name: string) | IKey(index: int)

  /** A PHP value; floats, objects and resources do not occur in the pipeline. */
  datatype Value =
    | Null
    | Bool(b: bool)
    | Int(i: int)
    | Str(s: string)
    | Arr(entries: seq<(Key, Value)>)

  type PArray = seq<(Key, Value)>

  function Keys(a: PArray): (ks: seq<Key>)
    ensures |ks| == |a|
    ensures forall i :: 0 <= i < |a| ==> ks[i] == a[i].0
  {
    seq(|a|, i requires 0 <= i < |a| => a[i].0)
  }

  /** No key occurs twice: every PHP array satisfies this. */
  predicate UniqueKeys(a: PArray) {
    forall i, j :: 0 <= i < j < |a| ==> a[i].0 != a[j].0
  }

  /** `$a[$k]`: the value stored under `k`, null when there is none. */
  function Get(a: PArray, k: Key): Value {
    if a == [] then Null
    else if a[0].0 == k then a[0].1
    else Get(a[1..], k)
  }

  /** `isset($a[$k])`: the key is present and its value is not null. */
  predicate IsSet(a: PArray, k: Key) {
    Get(a, k) != Null
  }

  /** `$a[$k] = $v`: an existing entry keeps its position, a new one goes last. */
  function Put(a: PArray, k: Key, v: Value): PArray {
    if a == [] then [(k, v)]
    else if a[0].0 == k then [(k, v)] + a[1..]
    else [a[0]] + Put(a[1..], k, v)
  }

  /** The values of an array in order (what `foreach ($a as $v)` visits). */
  function Values(a: PArray): (vs: seq<Value>)
    ensures |vs| == |a|
    ensures forall i :: 0 <= i < |a| ==> vs[i] == a[i].1
  {
    seq(|a|, i requires 0 <= i < |a| => a[i].1)
  }

  /** `is_assoc`: an array that has at least one string key. */
  predicate IsAssoc(v: Value) {
    v.Arr? && exists i :: 0 <= i < |v.entries| && v.entries[i].0.SKey?
  }

  /** `count(array_filter(array_keys($a), 'is_string'))`: how many keys are strings. */
  function StringKeyCount(a: PArray): nat
    decreases |a|
  {
    if a == [] then 0 else StringKeyCount(a[..|a| - 1]) + (if a[|a| - 1].0.SKey? then 1 else 0)
  }

  /**
   * `is_assoc` as the source computes it: a non-array is not associative, and
   * an array is exactly when its count of string keys, cast to bool, is true.
   */
  lemma {:induction false} IsAssocCount(v: Value)
    ensures IsAssoc(v) <==> v.Arr? && StringKeyCount(v.entries) > 0
  {
    if v.Arr? {
      StringKeyCountPositive(v.entries);
    }
  }

  lemma {:induction false} StringKeyCountPositive(a: PArray)
    ensures StringKeyCount(a) > 0 <==> exists i :: 0 <= i < |a| && a[i].0.SKey?
    decreases |a|
  {
    if a != [] {
      var n := |a| - 1;
      StringKeyCountPositive(a[..n]);
      if StringKeyCount(a[..n]) > 0 {
        var i :| 0 <= i < n && a[..n][i].0.SKey?;
        assert a[i].0.SKey?;
      }
      if !a[n].0.SKey? && exists i :: 0 <= i < |a| && a[i].0.SKey? {
        var i :| 0 <= i < |a| && a[i].0.SKey?;
        assert a[..n][i].0.SKey?;
      }
    }
  }

  lemma {:induction false} GetMissing(a: PArray, k: Key)
    requires k !in Keys(a)
    ensures Get(a, k) == Null
  {
    if a != [] {
      assert Keys(a[1..]) == Keys(a)[1..];
      GetMissing(a[1..], k);
    }
  }

  lemma {:induction false} GetAppend(a: PArray, e: (Key, Value), k: Key)
    ensures Get(a + [e], k) == if k in Keys(a) then Get(a, k) else if k == e.0 then e.1 else Null
  {
    if a == [] {
      assert [] + [e] == [e];
    } else {
      assert (a + [e])[1..] == a[1..] + [e];
      assert Keys(a) == [a[0].0] + Keys(a[1..]);
      GetAppend(a[1..], e, k);
    }
  }

  lemma {:induction false} GetPut(a: PArray, k: Key, v: Value, k': Key)
    ensures Get(Put(a, k, v), k') == if k' == k then v else Get(a, k')
  {
    if a != [] && a[0].0 != k {
      GetPut(a[1..], k, v, k');
    }
  }

  lemma {:induction false} KeysPut(a: PArray, k: Key, v: Value)
    ensures Keys(Put(a, k, v)) == if k in Keys(a) then Keys(a) else Keys(a) + [k]
  {
    if a == [] {
    } else if a[0].0 == k {
      assert Keys(Put(a, k, v)) == Keys(a);
    } else {
      var head, rest := [a[0]], a[1..];
      KeysPut(rest, k, v);
      assert a == head + rest;
      assert Put(a, k, v) == head + Put(rest, k, v);
      KeysAppend(head, rest);
      KeysAppend(head, Put(rest, k, v));
      assert Keys(head) == [a[0].0];
      if k !in Keys(rest) {
        assert Keys(head) + (Keys(rest) + [k]) == (Keys(head) + Keys(rest)) + [k];
      }
    }
  }

  /** Assigning a key that is not present appends it. */
  lemma {:induction false} PutNew(a: PArray, k: Key, v: Value)
    requires k !in Keys(a)
    ensures Put(a, k, v) == a + [(k, v)]
  {
    if a != [] {
      assert Keys(a[1..]) == Keys(a)[1..];
      PutNew(a[1..], k, v);
      assert a == [a[0]] + a[1..];
    }
  }

  lemma KeysAppend(a: PArray, b: PArray)
    ensures Keys(a + b) == Keys(a) + Keys(b)
  {
  }

  /** An assignment keeps the keys of an array unique. */
  lemma PutPreservesUnique(a: PArray, k: Key, v: Value)
    requires UniqueKeys(a)
    ensures UniqueKeys(Put(a, k, v))
  {
    KeysPut(a, k, v);
    var r := Put(a, k, v);
    forall i, j | 0 <= i < j < |r| ensures r[i].0 != r[j].0 {
      assert Keys(r)[i] == r[i].0 && Keys(r)[j] == r[j].0;
    }
  }

  /** A value that is set is stored in an entry under its key. */
  lemma {:induction false} GetIn(a: PArray, k: Key)
    requires IsSet(a, k)
    ensures (k, Get(a, k)) in a
  {
    if a[0].0 != k {
      GetIn(a[1..], k);
    }
  }

  /** Under unique keys, looking up the key of an entry gives that entry's value. */
  lemma {:induction false} GetEntry(a: PArray, i: nat)
    requires UniqueKeys(a) && i < |a|
    ensures Get(a, a[i].0) == a[i].1
  {
    if i > 0 {
      assert a[0].0 != a[i].0;
      assert a[1..][i - 1] == a[i];
      GetEntry(a[1..], i - 1);
    }
  }

  // ---------------------------------------------------------------------
  // Strings: explode, implode, strtoupper and decimal formatting.
  // ---------------------------------------------------------------------

  /** `implode($glue, $parts)`. */
  function Implode(parts: seq<string>, glue: string): string
    decreases |parts|
  {
    if |parts| == 0 then ""
    else if |parts| == 1 then parts[0]
    else parts[0] + glue + Implode(parts[1..], glue)
  }

  /** `explode($sep, $s)` for a one-character separator: never empty. */
  function Split(s: string, sep: char): (parts: seq<string>)
    ensures |parts| >= 1
    decreases |s|
  {
    if s == [] then [""]
    else
      var rest := Split(s[1..], sep);
      if s[0] == sep then [""] + rest
      else [[s[0]] + rest[0]] + rest[1..]
  }

  /** Joining the pieces of `explode` with the separator gives the string back. */
  lemma {:induction false} ImplodeSplit(s: string, sep: char)
    ensures Implode(Split(s, sep), [sep]) == s
  {
    if s != [] {
      var rest := Split(s[1..], sep);
      ImplodeSplit(s[1..], sep);
      if s[0] == sep {
        assert ([""] + rest)[1..] == rest;
        assert s == [sep] + s[1..];
      } else {
        var parts := [[s[0]] + rest[0]] + rest[1..];
        assert parts[1..] == rest[1..];
        if |rest| > 1 {
          assert Implode(rest, [sep]) == rest[0] + [sep] + Implode(rest[1..], [sep]);
        }
        assert s == [s[0]] + s[1..];
      }
    }
  }

  /** No piece of `explode` contains the separator. */
  lemma {:induction false} SplitPiecesFree(s: string, sep: char)
    ensures forall i :: 0 <= i < |Split(s, sep)| ==> sep !in Split(s, sep)[i]
  {
    if s != [] {
      SplitPiecesFree(s[1..], sep);
      var rest := Split(s[1..], sep);
      if s[0] == sep {
        assert forall i :: 1 <= i < |Split(s, sep)| ==> Split(s, sep)[i] == rest[i - 1];
      } else {
        assert forall i :: 1 <= i < |Split(s, sep)| ==> Split(s, sep)[i] == rest[i];
      }
    }
  }

  lemma {:induction false} SplitFreePrefix(a: string, rest: string, sep: char)
    requires sep !in a
    ensures Split(a + rest, sep) == [a + Split(rest, sep)[0]] + Split(rest, sep)[1..]
  {
    if a != [] {
      assert (a + rest)[1..] == a[1..] + rest;
      SplitFreePrefix(a[1..], rest, sep);
      assert (a + rest)[0] == a[0];
      assert [a[0]] + (a[1..] + Split(rest, sep)[0]) == a + Split(rest, sep)[0];
    } else {
      var parts := Split(rest, sep);
      assert a + rest == rest && a + parts[0] == parts[0];
      assert parts == [parts[0]] + parts[1..];
    }
  }

  /** Conversely, pieces free of the separator are what `explode` splits their join into. */
  lemma {:induction false} SplitImplode(parts: seq<string>, sep: char)
    requires |parts| >= 1
    requires forall i :: 0 <= i < |parts| ==> sep !in parts[i]
    ensures Split(Implode(parts, [sep]), sep) == parts
    decreases |parts|
  {
    if |parts| == 1 {
      SplitFreePrefix(parts[0], "", sep);
      assert parts[0] + "" == parts[0];
    } else {
      var tail := Implode(parts[1..], [sep]);
      SplitImplode(parts[1..], sep);
      assert parts[0] + [sep] + tail == parts[0] + ([sep] + tail);
      SplitFreePrefix(parts[0], [sep] + tail, sep);
      assert ([sep] + tail)[1..] == tail;
      assert parts[0] + "" == parts[0];
      assert parts == [parts[0]] + parts[1..];
    }
  }

  predicate IsLower(c: char) { 'a' <= c <= 'z' }

  function UpperChar(c: char): char {
    if IsLower(c) then (c as int - 32) as char else c
  }

  /** `strtoupper` on the ASCII letters; every other character is kept. */
  function AsciiUpper(s: string): (u: string)
    ensures |u| == |s|
    ensures forall i :: 0 <= i < |s| ==> !IsLower(u[i])
    ensures forall i :: 0 <= i < |s| && IsLower(s[i]) ==> u[i] as int == s[i] as int - 32
    ensures forall i :: 0 <= i < |s| && !IsLower(s[i]) ==> u[i] == s[i]
  {
    seq(|s|, i requires 0 <= i < |s| => UpperChar(s[i]))
  }

  function Digit(d: nat): (c: char)
    requires d < 10
    ensures '0' <= c <= '9' && c as int - '0' as int == d
  {
    ('0' as int + d) as char
  }

  /** The decimal notation of a natural number, as `"$count"` prints it. */
  function NatToString(n: nat): (s: string)
    ensures |s| >= 1
    ensures forall i :: 0 <= i < |s| ==> '0' <= s[i] <= '9'
    ensures |s| > 1 ==> s[0] != '0'
  {
    if n < 10 then [Digit(n)] else NatToString(n / 10) + [Digit(n % 10)]
  }

  /** The number a string of decimal digits denotes. */
  function DecimalValue(s: string): nat
    requires forall i :: 0 <= i < |s| ==> '0' <= s[i] <= '9'
    decreases |s|
  {
    if s == [] then 0 else DecimalValue(s[..|s| - 1]) * 10 + (s[|s| - 1] as int - '0' as int)
  }

  /** Reading the notation back gives the number. */
  lemma {:induction false} NatToStringValue(n: nat)
    ensures DecimalValue(NatToString(n)) == n
    decreases n
  {
    if n >= 10 {
      var s := NatToString(n);
      NatToStringValue(n / 10);
      assert s[..|s| - 1] == NatToString(n / 10);
    }
  }

  /** PHP's conversion of a value to string: integers in decimal, true as "1", false and null as "". */
  function ToPhpString(v: Value): string {
    match v
    case Null => ""
    case Bool(b) => if b then "1" else ""
    case Int(i) => if i < 0 then "-" + NatToString(-i) else NatToString(i)
    case Str(s) => s
    case Arr(_) => "Array"
  }
}
