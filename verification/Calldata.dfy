/** The multicall encodings (account/account.go) and what reads them back. Felts are numbers
    here; a slice's length fits in 64 bits. */
module Calldata {
  import opened Results

  datatype FunctionCall = FunctionCall(contractAddress: int, entryPointSelector: int, calldata: seq<int>)

  // ---------- the encoders ----------

  /** Address, selector, offset and length of each call. */
  function Headers(calls: seq<FunctionCall>, offset: nat): seq<int> {
    if |calls| == 0 then []
    else
      var c := calls[0];
      [c.contractAddress, c.entryPointSelector, offset, |c.calldata|] + Headers(calls[1..], offset + |c.calldata|)
  }

  function Bodies(calls: seq<FunctionCall>): seq<int> {
    if |calls| == 0 then [] else calls[0].calldata + Bodies(calls[1..])
  }

  function Cairo0(calls: seq<FunctionCall>): seq<int> {
    [|calls|] + Headers(calls, 0) + [|Bodies(calls)|] + Bodies(calls)
  }

  function Records(calls: seq<FunctionCall>): seq<int> {
    if |calls| == 0 then []
    else [calls[0].contractAddress, calls[0].entryPointSelector, |calls[0].calldata|] + calls[0].calldata + Records(calls[1..])
  }

  function Cairo2(calls: seq<FunctionCall>): seq<int> {
    [|calls|] + Records(calls)
  }

  method FmtCallDataCairo0(callArray: seq<FunctionCall>) returns (calldata: seq<int>)
    ensures calldata == Cairo0(callArray)
  {
    calldata := [|callArray|];
    var calls: seq<int> := [];
    var offset := 0;
    for i := 0 to |callArray|
      invariant offset == |calls|
      invariant calldata + Headers(callArray[i..], offset) == [|callArray|] + Headers(callArray, 0)
      invariant calls + Bodies(callArray[i..]) == Bodies(callArray)
    {
      var call := callArray[i];
      assert callArray[i..][1..] == callArray[i + 1..];
      var header := [call.contractAddress, call.entryPointSelector, offset, |call.calldata|];
      ghost var rest := Headers(callArray[i + 1..], offset + |call.calldata|);
      assert calldata + (header + rest) == (calldata + header) + rest;
      assert calls + (call.calldata + Bodies(callArray[i + 1..])) == (calls + call.calldata) + Bodies(callArray[i + 1..]);
      calldata := calldata + header;
      offset := offset + |call.calldata|;
      calls := calls + call.calldata;
    }
    assert callArray[|callArray|..] == [];
    assert calldata + [] == calldata && calls + [] == calls;
    calldata := calldata + [offset];
    calldata := calldata + calls;
  }

  method FmtCallDataCairo2(callArray: seq<FunctionCall>) returns (result: seq<int>)
    ensures result == Cairo2(callArray)
  {
    result := [|callArray|];
    for i := 0 to |callArray|
      invariant result + Records(callArray[i..]) == Cairo2(callArray)
    {
      var call := callArray[i];
      assert callArray[i..][1..] == callArray[i + 1..];
      var record := [call.contractAddress, call.entryPointSelector, |call.calldata|] + call.calldata;
      assert result + (record + Records(callArray[i + 1..])) == (result + record) + Records(callArray[i + 1..]);
      result := result + record;
    }
    assert callArray[|callArray|..] == [];
    assert result + [] == result;
  }

  /** FmtCalldata: versions 0 and 2 only. */
  method FmtCalldata(cairoVersion: int, fnCalls: seq<FunctionCall>) returns (r: Result<seq<int>>)
    ensures r == if cairoVersion == 0 then Ok(Cairo0(fnCalls))
                 else if cairoVersion == 2 then Ok(Cairo2(fnCalls))
                 else Err("cairo version not supported")
  {
    if cairoVersion == 0 {
      var d := FmtCallDataCairo0(fnCalls);
      return Ok(d);
    } else if cairoVersion == 2 {
      var d := FmtCallDataCairo2(fnCalls);
      return Ok(d);
    }
    return Err("cairo version not supported");
  }

  // ---------- reading back ----------

  /** Call i of a Cairo 0 payload, cut out of the body by its offset and length. */
  function CallAt(data: seq<int>, n: nat, i: nat): Option<FunctionCall>
    requires i < n && 4 * n + 2 <= |data|
  {
    var body := data[4 * n + 2..];
    var off, len := data[4 * i + 3], data[4 * i + 4];
    if 0 <= off && 0 <= len && off + len <= |body|
    then Some(FunctionCall(data[4 * i + 1], data[4 * i + 2], body[off..off + len]))
    else None
  }

  function CallsFrom(data: seq<int>, n: nat, i: nat): Option<seq<FunctionCall>>
    requires i <= n && 4 * n + 2 <= |data|
    decreases n - i
  {
    if i == n then Some([])
    else
      match (CallAt(data, n, i), CallsFrom(data, n, i + 1))
      case (Some(c), Some(cs)) => Some([c] + cs)
      case _ => None
  }

  /** The account contract's view of a Cairo 0 payload. */
  function Decode0(data: seq<int>): Option<seq<FunctionCall>> {
    if |data| == 0 || data[0] < 0 || 4 * data[0] + 2 > |data| then None
    else if data[4 * data[0] + 1] != |data| - (4 * data[0] + 2) then None
    else CallsFrom(data, data[0], 0)
  }

  function DecodeRecords(n: nat, data: seq<int>): Option<seq<FunctionCall>> {
    if n == 0 then if data == [] then Some([]) else None
    else if |data| < 3 || data[2] < 0 || 3 + data[2] > |data| then None
    else
      match DecodeRecords(n - 1, data[3 + data[2]..])
      case None => None
      case Some(cs) => Some([FunctionCall(data[0], data[1], data[3..3 + data[2]])] + cs)
  }

  function Decode2(data: seq<int>): Option<seq<FunctionCall>> {
    if |data| == 0 || data[0] < 0 then None else DecodeRecords(data[0], data[1..])
  }

  // ---------- round trips ----------

  /** Where call i's data starts: the lengths of the calls before it. */
  function OffsetOf(calls: seq<FunctionCall>, i: nat): nat
    requires i <= |calls|
  {
    if i == 0 then 0 else |calls[0].calldata| + OffsetOf(calls[1..], i - 1)
  }

  lemma {:induction false} HeaderAt(calls: seq<FunctionCall>, offset: nat, i: nat)
    requires i < |calls|
    ensures |Headers(calls, offset)| == 4 * |calls|
    ensures Headers(calls, offset)[4 * i] == calls[i].contractAddress
    ensures Headers(calls, offset)[4 * i + 1] == calls[i].entryPointSelector
    ensures Headers(calls, offset)[4 * i + 2] == offset + OffsetOf(calls, i)
    ensures Headers(calls, offset)[4 * i + 3] == |calls[i].calldata|
    decreases |calls|
  {
    var len := |calls[0].calldata|;
    if |calls| > 1 {
      HeaderAt(calls[1..], offset + len, if i == 0 then 0 else i - 1);
    }
  }

  lemma {:induction false} BodyAt(calls: seq<FunctionCall>, i: nat)
    requires i < |calls|
    ensures OffsetOf(calls, i) + |calls[i].calldata| <= |Bodies(calls)|
    ensures Bodies(calls)[OffsetOf(calls, i)..OffsetOf(calls, i) + |calls[i].calldata|] == calls[i].calldata
    decreases |calls|
  {
    var len := |calls[0].calldata|;
    if i == 0 {
      assert Bodies(calls)[..len] == calls[0].calldata;
    } else {
      BodyAt(calls[1..], i - 1);
      SliceAfter(calls[0].calldata, Bodies(calls[1..]), OffsetOf(calls[1..], i - 1), |calls[i].calldata|);
    }
  }

  lemma SliceAfter(a: seq<int>, b: seq<int>, o: nat, n: nat)
    requires o + n <= |b|
    ensures (a + b)[|a| + o..|a| + o + n] == b[o..o + n]
  {}

  /** Each offset is the sum of the earlier lengths, and the total closes the body. */
  lemma {:induction false} OffsetsSum(calls: seq<FunctionCall>, i: nat)
    requires i <= |calls|
    ensures OffsetOf(calls, i) == |Bodies(calls[..i])|
    decreases |calls|
  {
    if i > 0 {
      OffsetsSum(calls[1..], i - 1);
      assert calls[..i][1..] == calls[1..][..i - 1];
    }
  }

  lemma {:induction false} CallsFromEncoding(calls: seq<FunctionCall>, i: nat)
    requires i <= |calls|
    ensures |Cairo0(calls)| == 4 * |calls| + 2 + |Bodies(calls)|
    ensures CallsFrom(Cairo0(calls), |calls|, i) == Some(calls[i..])
    decreases |calls| - i
  {
    if |calls| > 0 {
      HeaderAt(calls, 0, 0);
    }
    if i < |calls| {
      CallsFromEncoding(calls, i + 1);
      CallAtEncoding(calls, i);
      CallsFromStep(Cairo0(calls), |calls|, i, calls[i], calls[i + 1..]);
      assert calls[i..] == [calls[i]] + calls[i + 1..];
    } else {
      assert calls[i..] == [];
    }
  }

  lemma CallsFromStep(data: seq<int>, n: nat, i: nat, c: FunctionCall, cs: seq<FunctionCall>)
    requires i < n && 4 * n + 2 <= |data|
    requires CallAt(data, n, i) == Some(c) && CallsFrom(data, n, i + 1) == Some(cs)
    ensures CallsFrom(data, n, i) == Some([c] + cs)
  {
    hide CallAt;
  }

  lemma CallAtEncoding(calls: seq<FunctionCall>, i: nat)
    requires i < |calls| && |Cairo0(calls)| == 4 * |calls| + 2 + |Bodies(calls)|
    ensures CallAt(Cairo0(calls), |calls|, i) == Some(calls[i])
  {
    HeaderAt(calls, 0, i);
    BodyAt(calls, i);
    hide Headers, Bodies, OffsetOf;
    var data, n, heads, body := Cairo0(calls), |calls|, Headers(calls, 0), Bodies(calls);
    assert data[4 * n + 2..] == body;
    HeaderCell(n, heads, |body|, body, 4 * i);
    HeaderCell(n, heads, |body|, body, 4 * i + 1);
    HeaderCell(n, heads, |body|, body, 4 * i + 2);
    HeaderCell(n, heads, |body|, body, 4 * i + 3);
  }

  lemma HeaderCell(n: int, heads: seq<int>, total: int, body: seq<int>, k: nat)
    requires k < |heads|
    ensures ([n] + heads + [total] + body)[k + 1] == heads[k]
  {}

  /** Cairo 0 payloads decode, by their offsets and lengths, to the calls encoded. */
  lemma Cairo0RoundTrip(calls: seq<FunctionCall>)
    ensures Decode0(Cairo0(calls)) == Some(calls)
  {
    CallsFromEncoding(calls, 0);
    assert calls[0..] == calls;
    if |calls| > 0 {
      HeaderAt(calls, 0, 0);
    }
    assert Cairo0(calls)[4 * |calls| + 1] == |Bodies(calls)|;
  }

  lemma {:induction false} RecordsRoundTrip(calls: seq<FunctionCall>)
    ensures DecodeRecords(|calls|, Records(calls)) == Some(calls)
  {
    if |calls| > 0 {
      var c, data := calls[0], Records(calls);
      RecordsRoundTrip(calls[1..]);
      assert data[3 + |c.calldata|..] == Records(calls[1..]);
      assert data[3..3 + |c.calldata|] == c.calldata;
      assert calls == [c] + calls[1..];
    }
  }

  /** What decodes starts with a whole record. */
  lemma FirstRecord(n: nat, data: seq<int>)
    requires n > 0 && DecodeRecords(n, data).Some?
    ensures |data| >= 3 && 0 <= data[2] && 3 + data[2] <= |data| && DecodeRecords(n - 1, data[3 + data[2]..]).Some?
    ensures DecodeRecords(n, data).value
         == [FunctionCall(data[0], data[1], data[3..3 + data[2]])] + DecodeRecords(n - 1, data[3 + data[2]..]).value
  {}

  lemma RecordsSplit(data: seq<int>, len: nat, calls: seq<FunctionCall>)
    requires |data| >= 3 && data[2] == len && 3 + len <= |data| && Records(calls) == data[3 + len..]
    ensures Records([FunctionCall(data[0], data[1], data[3..3 + len])] + calls) == data
  {
    var c := FunctionCall(data[0], data[1], data[3..3 + len]);
    assert ([c] + calls)[1..] == calls;
    assert data == [data[0], data[1], data[2]] + data[3..3 + len] + data[3 + len..];
  }

  lemma {:induction false} RecordsCanonical(n: nat, data: seq<int>)
    requires DecodeRecords(n, data).Some?
    ensures |DecodeRecords(n, data).value| == n && Records(DecodeRecords(n, data).value) == data
  {
    if n > 0 {
      FirstRecord(n, data);
      hide DecodeRecords, Records;
      RecordsCanonical(n - 1, data[3 + data[2]..]);
      RecordsSplit(data, data[2], DecodeRecords(n - 1, data[3 + data[2]..]).value);
    }
  }

  /** Cairo 2 payloads and lists of calls are in bijection: what is encoded decodes to itself,
      and whatever decodes is the encoding of what it decodes to. */
  lemma Cairo2RoundTrip(calls: seq<FunctionCall>, data: seq<int>)
    ensures Decode2(data) == Some(calls) <==> data == Cairo2(calls)
  {
    RecordsRoundTrip(calls);
    assert Cairo2(calls)[1..] == Records(calls);
    if Decode2(data).Some? {
      RecordsCanonical(data[0], data[1..]);
      assert data == [data[0]] + data[1..];
    }
  }
}
