/**
 * The transform handler of the implement_the_eventBridge_ETL_architecture
 * example: it pairs the header names of an "extracted" event with the values of
 * its data row, assigning one property per header, in header order, into an
 * object that starts empty.
 *
 * The row is an array of strings, the way the extract handler sends it, or
 * `None` when the event carries none.
 */
module Transform {
  import opened Wrappers
  import opened Effects

  /** `data[i]`: the value at index `i`, `undefined` past the end of the row. */
  function At(data: seq<string>, i: nat): Option<string>
  {
    if i < |data| then Some(data[i]) else None
  }

  /** The object after the first `|headers|` turns of the loop: header `k` is set to `data[k]`, in order. */
  function Zip(headers: seq<string>, data: seq<string>): Record
    decreases |headers|
  {
    if headers == [] then map[]
    else
      var n := |headers| - 1;
      Zip(headers[..n], data)[headers[n] := At(data, n)]
  }

  /** What the handler returns. */
  datatype Output = Output(Object: Record)

  /** No header name occurs twice. */
  predicate Distinct(headers: seq<string>)
  {
    forall i, j | 0 <= i < j < |headers| :: headers[i] != headers[j]
  }

  /** Header `i` is not assigned again later in the loop. */
  predicate LastOccurrence(headers: seq<string>, i: nat)
    requires i < |headers|
  {
    forall j | i < j < |headers| :: headers[j] != headers[i]
  }

  lemma PrefixOfPrefix(headers: seq<string>, n: nat)
    requires n < |headers|
    ensures headers[..n + 1][..n] == headers[..n]
    ensures headers[..n + 1][n] == headers[n]
  {
  }

  /**
   * The handler. `data` is `event.detail.data`, `None` when it is absent; then
   * the first turn of the loop reads an index of `undefined` and throws, so the
   * result is `None`. Otherwise there is one assignment per header index, in
   * order, and the object holds exactly the header names.
   */
  method Handler(headers: seq<string>, data: Option<seq<string>>) returns (out: Option<Output>)
    ensures out.None? <==> data.None? && |headers| > 0
    ensures data.Some? ==> out == Some(Output(Zip(headers, data.value)))
    ensures out.Some? ==> forall k :: k in out.value.Object <==> k in headers
  {
    var transformed: Record := map[];
    var index := 0;
    while index < |headers|
      invariant index <= |headers|
      invariant data.Some? ==> transformed == Zip(headers[..index], data.value)
      invariant data.None? ==> index == 0 && transformed == map[]
    {
      if data.None? {
        return None;
      }
      PrefixOfPrefix(headers, index);
      transformed := transformed[headers[index] := At(data.value, index)];
      index := index + 1;
    }
    assert headers[..index] == headers;
    if data.Some? {
      ZipKeys(headers, data.value);
    }
    out := Some(Output(transformed));
  }

  /** Only headers are assigned, and every header is. */
  lemma {:induction false} ZipKeys(headers: seq<string>, data: seq<string>)
    ensures forall k :: k in Zip(headers, data) <==> k in headers
    decreases |headers|
  {
    if headers != [] {
      var n := |headers| - 1;
      ZipKeys(headers[..n], data);
      assert headers == headers[..n] + [headers[n]];
    }
  }

  /** A header keeps the value of its last index: a later assignment of the same name overwrites an earlier one. */
  lemma {:induction false} ZipValue(headers: seq<string>, data: seq<string>, i: nat)
    requires i < |headers| && LastOccurrence(headers, i)
    ensures headers[i] in Zip(headers, data)
    ensures Zip(headers, data)[headers[i]] == At(data, i)
    decreases |headers|
  {
    var n := |headers| - 1;
    if i < n {
      var front := headers[..n];
      assert LastOccurrence(front, i) by {
        forall j | i < j < |front| ensures front[j] != front[i] {
          assert front[j] == headers[j];
        }
      }
      ZipValue(front, data, i);
      assert headers[n] != headers[i];
    }
  }

  /** With distinct header names, each header holds the value at its own index. */
  lemma ZipDistinct(headers: seq<string>, data: seq<string>)
    requires Distinct(headers)
    ensures forall i | 0 <= i < |headers| :: headers[i] in Zip(headers, data) && Zip(headers, data)[headers[i]] == At(data, i)
  {
    forall i | 0 <= i < |headers|
      ensures headers[i] in Zip(headers, data) && Zip(headers, data)[headers[i]] == At(data, i)
    {
      ZipValue(headers, data, i);
    }
  }

  /** A header past the end of the row is set to `undefined`, whichever of its occurrences is the last. */
  lemma {:induction false} ZipShortRow(headers: seq<string>, data: seq<string>, i: nat)
    requires |data| <= i < |headers|
    ensures headers[i] in Zip(headers, data) && Zip(headers, data)[headers[i]] == None
    decreases |headers|
  {
    var n := |headers| - 1;
    if i < n && headers[n] != headers[i] {
      ZipShortRow(headers[..n], data, i);
    }
  }

  /** Only the values at header indices are read. */
  lemma {:induction false} ZipAgree(headers: seq<string>, d1: seq<string>, d2: seq<string>)
    requires forall i: nat | i < |headers| :: At(d1, i) == At(d2, i)
    ensures Zip(headers, d1) == Zip(headers, d2)
    decreases |headers|
  {
    if headers != [] {
      var n := |headers| - 1;
      ZipAgree(headers[..n], d1, d2);
      assert At(d1, n) == At(d2, n);
    }
  }

  /** Values past the last header are dropped. */
  lemma ZipDropsExtra(headers: seq<string>, data: seq<string>)
    requires |headers| <= |data|
    ensures Zip(headers, data) == Zip(headers, data[..|headers|])
  {
    forall i: nat | i < |headers| ensures At(data, i) == At(data[..|headers|], i) {
    }
    ZipAgree(headers, data, data[..|headers|]);
  }

  /** At most one property per header, and exactly one per header when the names are distinct. */
  lemma {:induction false} ZipSize(headers: seq<string>, data: seq<string>)
    ensures |Zip(headers, data)| <= |headers|
    ensures Distinct(headers) ==> |Zip(headers, data)| == |headers|
    decreases |headers|
  {
    if headers != [] {
      var n := |headers| - 1;
      var front := headers[..n];
      ZipSize(front, data);
      UpdateSize(Zip(front, data), headers[n], At(data, n));
      if Distinct(headers) {
        DistinctFront(headers);
        ZipKeys(front, data);
      }
    }
  }

  /** Setting a property adds one key, unless the object already has it. */
  lemma UpdateSize(m: Record, k: string, v: Option<string>)
    ensures |m[k := v]| == if k in m then |m| else |m| + 1
  {
    if k in m {
      assert m[k := v].Keys == m.Keys;
    } else {
      assert m[k := v].Keys == m.Keys + {k};
    }
  }

  /** Without the last header the names stay distinct, and none of them is the last one. */
  lemma DistinctFront(headers: seq<string>)
    requires headers != [] && Distinct(headers)
    ensures Distinct(headers[..|headers| - 1])
    ensures headers[|headers| - 1] !in headers[..|headers| - 1]
  {
    var front := headers[..|headers| - 1];
    forall i, j | 0 <= i < j < |front| ensures front[i] != front[j] {
      assert front[i] == headers[i] && front[j] == headers[j];
    }
    forall i | 0 <= i < |front| ensures front[i] != headers[|headers| - 1] {
      assert front[i] == headers[i];
    }
  }
}
