/** `decode_stream_with_limits` and `decode_single_filter` (src/filters/mod.rs): a chain of filters under an output
    limit and an expansion limit. Filters decoded by external crates are a parameter. */
module Pipeline {
  import opened Bits
  import Ascii85
  import RunLength

  datatype Filter = RunLengthDecode | Ascii85Decode | ForeignDecode(tag: nat)

  type Outcome = Result<seq<byte>, FilterError>
  type Foreign = (nat, seq<byte>, nat) -> Outcome

  /** `decode_single_filter` */
  function Single(foreign: Foreign, data: seq<byte>, filter: Filter, limit: nat): Outcome {
    match filter
    case RunLengthDecode => RunLength.Decoded(data, limit)
    case Ascii85Decode => Ascii85.Decoded(data, limit)
    case ForeignDecode(tag) => foreign(tag, data, limit)
  }

  /** The filters still to apply to `data`, `inputLength` being at least 1. */
  function Chain(foreign: Foreign, data: seq<byte>, filters: seq<Filter>, limit: nat, ratio: nat,
        inputLength: nat): Outcome
    decreases |filters|
  {
    if filters == [] then Ok(data)
    else
      var decoded :- Single(foreign, data, filters[0], limit);
      if |decoded| > limit || |decoded| > inputLength * ratio then Err(DecompressionError)
      else Chain(foreign, decoded, filters[1..], limit, ratio, inputLength)
  }

  function InputLength(data: seq<byte>): nat {
    if |data| == 0 then 1 else |data|
  }

  function Decoded(foreign: Foreign, data: seq<byte>, filters: seq<Filter>, limit: nat, ratio: nat): Outcome {
    if |data| > limit && filters == [] then Err(DecompressionError)
    else Chain(foreign, data, filters, limit, ratio, InputLength(data))
  }

  lemma ChainStep(foreign: Foreign, data: seq<byte>, filters: seq<Filter>, i: nat, limit: nat, ratio: nat,
        inputLength: nat)
    requires i < |filters|
    ensures var single := Single(foreign, data, filters[i], limit);
      Chain(foreign, data, filters[i..], limit, ratio, inputLength) ==
        if single.Err? then single
        else if |single.value| > limit || |single.value| > inputLength * ratio then Err(DecompressionError)
        else Chain(foreign, single.value, filters[i + 1..], limit, ratio, inputLength)
  {
    hide Single;
    assert filters[i..][1..] == filters[i + 1..];
  }

  lemma ChainEnd(foreign: Foreign, data: seq<byte>, limit: nat, ratio: nat, inputLength: nat)
    ensures Chain(foreign, data, [], limit, ratio, inputLength) == Ok(data)
  {
  }

  /** `decode_stream_with_limits`. */
  method DecodeStreamWithLimits(foreign: Foreign, data: seq<byte>, filters: seq<Filter>, maxOutputBytes: nat,
        maxRatio: nat)
    returns (r: Outcome)
    ensures r == Decoded(foreign, data, filters, maxOutputBytes, maxRatio)
  {
    hide Chain;
    if |data| > maxOutputBytes && filters == [] {
      return Err(DecompressionError);
    }
    var result := data;
    var inputLength := InputLength(data);
    assert filters[0..] == filters;
    for i := 0 to |filters|
      invariant Chain(foreign, result, filters[i..], maxOutputBytes, maxRatio, inputLength) ==
                Chain(foreign, data, filters, maxOutputBytes, maxRatio, inputLength)
    {
      ChainStep(foreign, result, filters, i, maxOutputBytes, maxRatio, inputLength);
      var decoded: Outcome;
      match filters[i] {
        case RunLengthDecode => decoded := RunLength.DecodeRunLength(result, maxOutputBytes);
        case Ascii85Decode => decoded := Ascii85.DecodeAscii85(result, maxOutputBytes);
        case ForeignDecode(tag) => decoded := foreign(tag, result, maxOutputBytes);
      }
      if decoded.Err? {
        return decoded;
      }
      result := decoded.value;
      if |result| > maxOutputBytes {
        return Err(DecompressionError);
      }
      if |result| > inputLength * maxRatio {
        return Err(DecompressionError);
      }
    }
    assert filters[|filters|..] == [];
    ChainEnd(foreign, result, maxOutputBytes, maxRatio, inputLength);
    return Ok(result);
  }

  // ---------------------------------------------------------------- theorems

  lemma {:induction false} ChainWithinLimits(foreign: Foreign, data: seq<byte>, filters: seq<Filter>, limit: nat,
        ratio: nat, inputLength: nat)
    requires (|data| <= limit && |data| <= inputLength * ratio) || filters != []
    requires Chain(foreign, data, filters, limit, ratio, inputLength).Ok?
    ensures var out := Chain(foreign, data, filters, limit, ratio, inputLength).value;
      |out| <= limit && |out| <= inputLength * ratio
    decreases |filters|
  {
    hide Single, Chain;
    if filters == [] {
      ChainEnd(foreign, data, limit, ratio, inputLength);
    } else {
      assert filters[0..] == filters;
      ChainStep(foreign, data, filters, 0, limit, ratio, inputLength);
      ChainWithinLimits(foreign, Single(foreign, data, filters[0], limit).value, filters[1..], limit, ratio,
        inputLength);
    }
  }

  /** Whatever the filters do, nothing larger than the limits is returned: the output limit always,
      the expansion limit as soon as there is a filter. */
  lemma OutputWithinLimits(foreign: Foreign, data: seq<byte>, filters: seq<Filter>, limit: nat, ratio: nat)
    requires Decoded(foreign, data, filters, limit, ratio).Ok?
    ensures var out := Decoded(foreign, data, filters, limit, ratio).value;
      |out| <= limit && (filters != [] ==> |out| <= InputLength(data) * ratio)
  {
    hide Chain;
    if filters == [] {
      ChainEnd(foreign, data, limit, ratio, InputLength(data));
    } else {
      ChainWithinLimits(foreign, data, filters, limit, ratio, InputLength(data));
    }
  }

  /** What passes from one filter to the next: each result within both limits. */
  ghost predicate Stages(foreign: Foreign, stages: seq<seq<byte>>, filters: seq<Filter>, limit: nat, most: nat) {
    |stages| == |filters| + 1 &&
    forall i :: 0 <= i < |filters| ==> StageAt(foreign, filters[i], stages[i], stages[i + 1], limit, most)
  }

  predicate StageAt(foreign: Foreign, filter: Filter, from: seq<byte>, to: seq<byte>, limit: nat, most: nat) {
    Single(foreign, from, filter, limit) == Ok(to) && |to| <= limit && |to| <= most
  }

  lemma StagesFirst(foreign: Foreign, first: seq<byte>, stages: seq<seq<byte>>, filters: seq<Filter>, limit: nat,
        most: nat)
    requires filters != [] && |stages| == |filters|
    ensures Stages(foreign, [first] + stages, filters, limit, most) <==>
      StageAt(foreign, filters[0], first, stages[0], limit, most) && Stages(foreign, stages, filters[1..], limit, most)
  {
    hide StageAt;
    var all, rest := [first] + stages, filters[1..];
    assert forall i :: 0 <= i < |stages| ==> all[i + 1] == stages[i];
    assert forall i :: 0 <= i < |rest| ==> rest[i] == filters[i + 1];
    if Stages(foreign, stages, rest, limit, most) && StageAt(foreign, filters[0], first, stages[0], limit, most) {
      forall i | 0 <= i < |filters| ensures StageAt(foreign, filters[i], all[i], all[i + 1], limit, most) {
        if i > 0 { assert StageAt(foreign, rest[i - 1], stages[i - 1], stages[i - 1 + 1], limit, most); }
      }
    }
    if Stages(foreign, all, filters, limit, most) {
      assert StageAt(foreign, filters[0], all[0], all[0 + 1], limit, most);
      forall i | 0 <= i < |rest| ensures StageAt(foreign, rest[i], stages[i], stages[i + 1], limit, most) {
        assert StageAt(foreign, filters[i + 1], all[i + 1], all[i + 1 + 1], limit, most);
      }
    }
  }

  lemma {:induction false} ChainStages(foreign: Foreign, data: seq<byte>, filters: seq<Filter>, limit: nat, ratio: nat,
        inputLength: nat) returns (stages: seq<seq<byte>>)
    requires Chain(foreign, data, filters, limit, ratio, inputLength).Ok?
    ensures Stages(foreign, stages, filters, limit, inputLength * ratio) && stages[0] == data
    ensures stages[|filters|] == Chain(foreign, data, filters, limit, ratio, inputLength).value
    decreases |filters|
  {
    hide Single, Chain, Stages;
    if filters == [] {
      stages := [data];
      ChainEnd(foreign, data, limit, ratio, inputLength);
      OneStage(foreign, data, limit, inputLength * ratio);
    } else {
      assert filters[0..] == filters;
      ChainStep(foreign, data, filters, 0, limit, ratio, inputLength);
      var decoded := Single(foreign, data, filters[0], limit).value;
      var more := ChainStages(foreign, decoded, filters[1..], limit, ratio, inputLength);
      StagesLength(foreign, more, filters[1..], limit, inputLength * ratio);
      StagesFirst(foreign, data, more, filters, limit, inputLength * ratio);
      stages := [data] + more;
    }
  }

  lemma {:induction false} StagesChain(foreign: Foreign, stages: seq<seq<byte>>, filters: seq<Filter>, limit: nat,
        ratio: nat, inputLength: nat)
    requires Stages(foreign, stages, filters, limit, inputLength * ratio)
    ensures |stages| > 0
    ensures Chain(foreign, stages[0], filters, limit, ratio, inputLength) == Ok(stages[|stages| - 1])
    decreases |filters|
  {
    hide Single, Chain, Stages;
    StagesLength(foreign, stages, filters, limit, inputLength * ratio);
    if filters == [] {
      ChainEnd(foreign, stages[0], limit, ratio, inputLength);
    } else {
      assert stages == [stages[0]] + stages[1..];
      StagesFirst(foreign, stages[0], stages[1..], filters, limit, inputLength * ratio);
      assert filters[0..] == filters;
      ChainStep(foreign, stages[0], filters, 0, limit, ratio, inputLength);
      StagesChain(foreign, stages[1..], filters[1..], limit, ratio, inputLength);
    }
  }

  lemma StagesLength(foreign: Foreign, stages: seq<seq<byte>>, filters: seq<Filter>, limit: nat, most: nat)
    requires Stages(foreign, stages, filters, limit, most)
    ensures |stages| == |filters| + 1
  {
  }

  lemma OneStage(foreign: Foreign, data: seq<byte>, limit: nat, most: nat)
    ensures Stages(foreign, [data], [], limit, most)
  {
  }

  /** A stream decodes to `out` exactly when the filters, first to last, lead from it to `out` with every result within
      the output limit and within the expansion limit, which counts empty data as one byte; without a filter, when it is
      `out` and within the output limit. */
  lemma DecodesExactly(foreign: Foreign, data: seq<byte>, filters: seq<Filter>, limit: nat, ratio: nat, out: seq<byte>)
    ensures Decoded(foreign, data, filters, limit, ratio) == Ok(out) <==>
      if filters == [] then out == data && |data| <= limit
      else
        exists stages ::
          && Stages(foreign, stages, filters, limit, (if |data| == 0 then 1 else |data|) * ratio)
          && |stages| == |filters| + 1 && stages[0] == data && stages[|filters|] == out
  {
    hide Single, Chain, Stages;
    if filters == [] {
      ChainEnd(foreign, data, limit, ratio, InputLength(data));
    } else {
      if Decoded(foreign, data, filters, limit, ratio) == Ok(out) {
        var stages := ChainStages(foreign, data, filters, limit, ratio, InputLength(data));
        StagesLength(foreign, stages, filters, limit, InputLength(data) * ratio);
      }
      if stages :|
        && Stages(foreign, stages, filters, limit, (if |data| == 0 then 1 else |data|) * ratio)
        && |stages| == |filters| + 1 && stages[0] == data && stages[|filters|] == out
      {
        StagesChain(foreign, stages, filters, limit, ratio, InputLength(data));
      }
    }
  }

  /** The encoders that the two modelled filters undo. */
  function EncodedBy(filter: Filter, data: seq<byte>): seq<byte> {
    match filter
    case RunLengthDecode => RunLength.Compressed(data)
    case Ascii85Decode => Ascii85.Encoded(data) + [126, 62]
    case ForeignDecode(_) => data
  }

  /** Data encoded so that decoding applies `filters` from first to last. */
  function EncodedThrough(filters: seq<Filter>, data: seq<byte>): seq<byte> {
    if filters == [] then data else EncodedBy(filters[0], EncodedThrough(filters[1..], data))
  }

  predicate Modelled(filters: seq<Filter>) {
    forall i :: 0 <= i < |filters| ==> !filters[i].ForeignDecode?
  }

  /** Every intermediate result, the last included, keeps within the limits. */
  predicate StagesFit(filters: seq<Filter>, data: seq<byte>, limit: nat, ratio: nat, inputLength: nat) {
    filters == [] || (
      var stage := EncodedThrough(filters[1..], data);
      |stage| <= limit && |stage| <= inputLength * ratio && StagesFit(filters[1..], data, limit, ratio, inputLength))
  }

  lemma SingleInverse(foreign: Foreign, filter: Filter, data: seq<byte>, limit: nat)
    requires !filter.ForeignDecode?
    ensures Single(foreign, EncodedBy(filter, data), filter, limit) ==
      if |data| <= limit then Ok(data) else Err(DecompressionError)
  {
    if filter.RunLengthDecode? {
      RunLength.RoundTrip(data, limit, []);
      assert RunLength.Compressed(data) + [] == RunLength.Compressed(data);
    } else {
      Ascii85.RoundTrip(data, [126, 62], limit);
    }
  }

  lemma {:induction false} ChainInverse(foreign: Foreign, filters: seq<Filter>, data: seq<byte>, limit: nat,
        ratio: nat, inputLength: nat)
    requires Modelled(filters)
    ensures Chain(foreign, EncodedThrough(filters, data), filters, limit, ratio, inputLength) ==
      if StagesFit(filters, data, limit, ratio, inputLength) then Ok(data) else Err(DecompressionError)
    decreases |filters|
  {
    hide Single, Chain, EncodedBy;
    if filters == [] {
      ChainEnd(foreign, data, limit, ratio, inputLength);
    } else {
      assert filters[0..] == filters;
      var stage := EncodedThrough(filters[1..], data);
      SingleInverse(foreign, filters[0], stage, limit);
      ChainStep(foreign, EncodedThrough(filters, data), filters, 0, limit, ratio, inputLength);
      ChainInverse(foreign, filters[1..], data, limit, ratio, inputLength);
    }
  }

  /** Data encoded through any chain of the modelled filters decodes to itself when every stage fits the limits,
      and is refused otherwise. */
  lemma PipelineInverse(foreign: Foreign, filters: seq<Filter>, data: seq<byte>, limit: nat, ratio: nat)
    requires Modelled(filters) && filters != []
    ensures var input := EncodedThrough(filters, data);
      Decoded(foreign, input, filters, limit, ratio) ==
        if StagesFit(filters, data, limit, ratio, InputLength(input)) then Ok(data) else Err(DecompressionError)
  {
    hide Chain, EncodedThrough, StagesFit;
    ChainInverse(foreign, filters, data, limit, ratio, InputLength(EncodedThrough(filters, data)));
  }
}
