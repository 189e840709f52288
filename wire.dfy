/**
 * `response`: what leaves the system for one envelope. The status line is
 * sent when `_statuscode` is a string, the `_headers` entry is sent header by
 * header (a string is first split into lines), the JSON content type is always
 * added, and the payload is the envelope minus every key that starts with
 * an underscore. Writing to the transport and JSON encoding are not modelled.
 */
module Wire {
  import opened PhpValues
  import opened Envelopes

  datatype WireResponse = WireResponse(status: Option<string>, headers: seq<Value>, payload: PArray)

  const ContentType: string := "Content-Type: application/json; encoding=UTF-8"

  /** `substr($k, 0, 1) === '_'`; an integer key prints as digits or '-', never '_'. */
  predicate IsInternal(k: Key) {
    k.SKey? && |k.name| > 0 && k.name[0] == '_'
  }

  /** The payload that is encoded: the envelope without its internal entries. */
  function Public(a: PArray): PArray
    decreases |a|
  {
    if a == [] then []
    else
      var last := a[|a| - 1];
      Public(a[..|a| - 1]) + (if IsInternal(last.0) then [] else [last])
  }

  /** `HTTP/1.0 <status>` when `_statuscode` holds a string. */
  function StatusLine(data: PArray): Option<string> {
    match Get(data, StatusKey)
    case Str(s) => Some("HTTP/1.0 " + s)
    case _ => None
  }

  function StrValues(lines: seq<string>): (vs: seq<Value>)
    ensures |vs| == |lines|
    ensures forall i :: 0 <= i < |lines| ==> vs[i] == Str(lines[i])
  {
    seq(|lines|, i requires 0 <= i < |lines| => Str(lines[i]))
  }

  /**
   * The headers `_headers` asks for: none when unset, the values of an array,
   * otherwise the lines of the value converted to a string.
   */
  function ExtraHeaders(data: PArray): seq<Value> {
    match Get(data, HeadersKey)
    case Null => []
    case Arr(es) => Values(es)
    case v => StrValues(Split(ToPhpString(v), '\n'))
  }

  /** `response`: the status line, the header list and the filtered payload. */
  method Response(data: PArray) returns (w: WireResponse)
    ensures w.status == StatusLine(data)
    ensures w.headers == ExtraHeaders(data) + [Str(ContentType)]
    ensures w.payload == Public(data)
  {
    var status: Option<string> := None;
    var sc := Get(data, StatusKey);
    if sc.Str? {
      status := Some("HTTP/1.0 " + sc.s);
    }
    var sent: seq<Value> := [];
    var hs := Get(data, HeadersKey);
    if hs != Null {
      var list: seq<Value>;
      if hs.Arr? {
        list := Values(hs.entries);
      } else {
        list := StrValues(Split(ToPhpString(hs), '\n'));
      }
      for i := 0 to |list|
        invariant sent == list[..i]
      {
        sent := sent + [list[i]];
      }
      assert list[..|list|] == list;
    }
    sent := sent + [Str(ContentType)];
    var send: PArray := [];
    for i := 0 to |data|
      invariant send == Public(data[..i])
    {
      var (k, v) := data[i];
      if !(k.SKey? && |k.name| > 0 && k.name[0] == '_') {
        send := send + [(k, v)];
      }
      assert data[..i + 1][..i] == data[..i];
    }
    assert data[..|data|] == data;
    w := WireResponse(status, sent, send);
  }

  /**
   * The filter is determined by these two equations: it distributes over
   * concatenation and keeps a single entry exactly when it is not internal.
   * Together they say that the relative order of the kept entries is preserved.
   */
  lemma {:induction false} PublicIsFilter(a: PArray, b: PArray)
    ensures Public(a + b) == Public(a) + Public(b)
    ensures |a| == 1 ==> Public(a) == if IsInternal(a[0].0) then [] else a
    decreases |b|
  {
    if |a| == 1 {
      assert a[..0] == [];
    }
    if b == [] {
      assert a + b == a;
    } else {
      var n := |b| - 1;
      assert (a + b)[..|a + b| - 1] == a + b[..n];
      assert (a + b)[|a + b| - 1] == b[n];
      PublicIsFilter(a, b[..n]);
    }
  }

  /** An entry is sent exactly when it is in the envelope and its key is not internal. */
  lemma {:induction false} PublicEntries(a: PArray)
    ensures forall e :: e in Public(a) <==> e in a && !IsInternal(e.0)
    decreases |a|
  {
    if a != [] {
      var n := |a| - 1;
      PublicEntries(a[..n]);
      assert a == a[..n] + [a[n]];
      forall e ensures e in a <==> e in a[..n] || e == a[n] {
      }
    }
  }

  /** No internal key ever reaches the wire. */
  lemma PublicHasNoInternalKeys(a: PArray)
    ensures forall i :: 0 <= i < |Public(a)| ==> !IsInternal(Public(a)[i].0)
  {
    PublicEntries(a);
    forall i | 0 <= i < |Public(a)| ensures !IsInternal(Public(a)[i].0) {
      assert Public(a)[i] in Public(a);
    }
  }

  /** Filtering keeps the keys of a PHP array unique. */
  lemma {:induction false} PublicUnique(a: PArray)
    requires UniqueKeys(a)
    ensures UniqueKeys(Public(a))
    decreases |a|
  {
    if a != [] {
      var n := |a| - 1;
      assert UniqueKeys(a[..n]);
      PublicUnique(a[..n]);
      PublicEntries(a[..n]);
      var p := Public(a[..n]);
      if !IsInternal(a[n].0) {
        forall i | 0 <= i < |p| ensures p[i].0 != a[n].0 {
          assert p[i] in p;
          var j :| 0 <= j < n && a[..n][j] == p[i];
          assert a[j].0 != a[n].0;
        }
      }
    }
  }

  /** A string `_headers` is sent as its lines: none of them holds a newline, and joined they give the string back. */
  lemma HeaderLines(data: PArray, s: string)
    requires Get(data, HeadersKey) == Str(s)
    ensures |ExtraHeaders(data)| == |Split(s, '\n')|
    ensures forall i :: 0 <= i < |ExtraHeaders(data)| ==> ExtraHeaders(data)[i] == Str(Split(s, '\n')[i])
    ensures forall i :: 0 <= i < |Split(s, '\n')| ==> '\n' !in Split(s, '\n')[i]
    ensures Implode(Split(s, '\n'), "\n") == s
  {
    ImplodeSplit(s, '\n');
    SplitPiecesFree(s, '\n');
  }
}
