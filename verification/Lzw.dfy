/** The LZW encoder `encode_lzw_pdf` (src/compression/mod.rs) at the level of codes and their widths,
    against a decoder that rebuilds its table from the codes alone (section 7.4.4.2 of ISO 32000-1). */
module Lzw {
  import opened Bits

  const CLEAR: nat := 256
  const END: nat := 257
  const FIRST: nat := 258
  const TABLE_END: nat := 4096
  const MAX_CODE_SIZE: nat := 12

  /** One `write_bits` call: a code and the width it is written with. */
  datatype Write = Write(code: nat, width: nat)

  type Dictionary = map<seq<byte>, nat>

  /** The first `n` bytes, each its own code. */
  function SinglesUpTo(n: nat): (dict: Dictionary)
    requires n <= 256
    ensures forall s :: s in dict <==> |s| == 1 && s[0] < n
    ensures forall s :: s in dict ==> dict[s] == s[0]
  {
    if n == 0 then map[]
    else
      assert forall s: seq<byte> :: |s| == 1 && s[0] == n - 1 ==> s == [n - 1];
      SinglesUpTo(n - 1)[[n - 1] := n - 1]
  }

  function Singles(): Dictionary {
    SinglesUpTo(256)
  }

  /** The encoder's variables between two bytes of input. */
  datatype Encoder = Encoder(dict: Dictionary, nextCode: nat, codeSize: nat, w: seq<byte>, writes: seq<Write>)

  const START := Encoder(Singles(), FIRST, 9, [], [Write(CLEAR, 9)])

  /** Every byte has a code, and so does the phrase read so far. */
  ghost predicate Ready(st: Encoder) {
    (forall b: byte :: [b] in st.dict) && (st.w != [] ==> st.w in st.dict)
  }

  function Widened(codeSize: nat, nextCode: nat, earlyChange: bool): nat {
    var offset := if earlyChange then 1 else 0;
    if nextCode == Pow2(codeSize) - 1 - offset && codeSize < MAX_CODE_SIZE then codeSize + 1 else codeSize
  }

  /** The code of the current phrase is written and the phrase extended by `k` enters the table,
      or the table is full and is cleared. */
  function Emit(st: Encoder, k: byte, earlyChange: bool): (next: Encoder)
    requires Ready(st) && st.w != []
    ensures Ready(next)
  {
    var out := st.writes + [Write(st.dict[st.w], st.codeSize)];
    if st.nextCode < TABLE_END then
      Encoder(st.dict[st.w + [k] := st.nextCode], st.nextCode + 1,
              Widened(st.codeSize, st.nextCode + 1, earlyChange), [k], out)
    else
      Encoder(Singles(), FIRST, 9, [k], out + [Write(CLEAR, st.codeSize)])
  }

  function Step(st: Encoder, k: byte, earlyChange: bool): (next: Encoder)
    requires Ready(st)
    ensures Ready(next)
  {
    if st.w + [k] in st.dict then st.(w := st.w + [k])
    else
      assert st.w == [] ==> st.w + [k] == [k];
      Emit(st, k, earlyChange)
  }

  /** The encoder after reading `data`. */
  function Run(data: seq<byte>, earlyChange: bool): (st: Encoder)
    ensures Ready(st)
  {
    if data == [] then START
    else Step(Run(data[..|data| - 1], earlyChange), data[|data| - 1], earlyChange)
  }

  function Finish(st: Encoder): seq<Write>
    requires Ready(st)
  {
    (if st.w != [] then st.writes + [Write(st.dict[st.w], st.codeSize)] else st.writes) + [Write(END, st.codeSize)]
  }

  function Encoded(data: seq<byte>, earlyChange: bool): seq<Write> {
    Finish(Run(data, earlyChange))
  }

  method FreshDictionary() returns (dict: Dictionary)
    ensures dict == Singles()
  {
    dict := map[];
    for i := 0 to 256
      invariant dict == SinglesUpTo(i)
    {
      dict := dict[[i] := i];
    }
  }

  lemma RunStep(data: seq<byte>, i: nat, earlyChange: bool)
    requires i < |data|
    ensures Run(data[..i + 1], earlyChange) == Step(Run(data[..i], earlyChange), data[i], earlyChange)
  {
    assert data[..i + 1][..i] == data[..i];
  }

  /** `encode_lzw_pdf`, returning the codes it writes and their widths. */
  method EncodeLzw(data: seq<byte>, earlyChange: bool) returns (writes: seq<Write>)
    ensures writes == Encoded(data, earlyChange)
  {
    hide Run, Singles, Pow2;
    var codeSize: nat := 9;
    var nextCode: nat := 258;
    var dict: Dictionary := FreshDictionary();
    writes := [Write(256, codeSize)];
    var w: seq<byte> := [];
    RunEmpty(earlyChange);
    assert data[..0] == [];
    for i := 0 to |data|
      invariant Encoder(dict, nextCode, codeSize, w, writes) == Run(data[..i], earlyChange)
    {
      RunStep(data, i, earlyChange);
      ghost var st := Run(data[..i], earlyChange);
      var k := data[i];
      var wPlus := w + [k];
      if wPlus in dict {
        w := wPlus;
      } else {
        // A lone byte always has a code, so the branch that writes `k` for an empty phrase
        // and the missing-code errors are never taken.
        assert [] + [k] == [k];
        assert w != [] && w in dict;
        writes := writes + [Write(dict[w], codeSize)];
        if nextCode < TABLE_END {
          dict := dict[wPlus := nextCode];
          nextCode := nextCode + 1;
          var offset := if earlyChange then 1 else 0;
          var threshold := Pow2(codeSize) - 1 - offset;
          if nextCode == threshold && codeSize < MAX_CODE_SIZE {
            codeSize := codeSize + 1;
          }
        } else {
          writes := writes + [Write(256, codeSize)];
          dict := FreshDictionary();
          codeSize := 9;
          nextCode := 258;
        }
        w := [k];
        assert Encoder(dict, nextCode, codeSize, w, writes) == Emit(st, k, earlyChange);
      }
    }
    assert data[..|data|] == data;
    if w != [] {
      writes := writes + [Write(dict[w], codeSize)];
    }
    writes := writes + [Write(257, codeSize)];
  }

  lemma RunLast(data: seq<byte>, earlyChange: bool)
    requires data != []
    ensures Run(data, earlyChange) == Step(Run(data[..|data| - 1], earlyChange), data[|data| - 1], earlyChange)
  {
  }

  lemma RunEmpty(earlyChange: bool)
    ensures Run([], earlyChange) == START
  {
  }

  // ---------------------------------------------------------------- the decoder of the standard

  /** `table[j]` is the entry of code 258 + j; `prev` is empty right after a Clear code. */
  datatype Decoder = Decoder(table: seq<seq<byte>>, prev: seq<byte>, out: seq<byte>, ended: bool) | Bad

  const DECODER_START := Decoder([], [], [], false)

  function Entry(table: seq<seq<byte>>, code: nat): Option<seq<byte>> {
    if code < 256 then Some([code])
    else if FIRST <= code < FIRST + |table| then Some(table[code - FIRST])
    else None
  }

  /** Output an entry and record the previous entry extended by its first byte. */
  function Accept(d: Decoder, entry: seq<byte>): Decoder
    requires d.Decoder? && entry != []
  {
    var table := if d.prev != [] && FIRST + |d.table| < TABLE_END then d.table + [d.prev + [entry[0]]] else d.table;
    Decoder(table, entry, d.out + entry, false)
  }

  function DecodeStep(d: Decoder, code: nat): Decoder {
    if d.Bad? || d.ended then d
    else if code == CLEAR then d.(table := [], prev := [])
    else if code == END then d.(ended := true)
    else
      match Entry(d.table, code)
      case Some(entry) => if entry == [] then Bad else Accept(d, entry)
      case None =>
        if code == FIRST + |d.table| && d.prev != [] then Accept(d, d.prev + [d.prev[0]]) else Bad
  }

  function DecodeRun(codes: seq<nat>): Decoder {
    if codes == [] then DECODER_START
    else DecodeStep(DecodeRun(codes[..|codes| - 1]), codes[|codes| - 1])
  }

  function Codes(writes: seq<Write>): (codes: seq<nat>)
    ensures |codes| == |writes|
  {
    seq(|writes|, i requires 0 <= i < |writes| => writes[i].code)
  }

  lemma DecodeAppend(writes: seq<Write>, last: Write)
    ensures DecodeRun(Codes(writes + [last])) == DecodeStep(DecodeRun(Codes(writes)), last.code)
  {
    var codes := Codes(writes + [last]);
    assert codes[..|codes| - 1] == Codes(writes);
  }

  // ---------------------------------------------------------------- the dictionary invariant

  /** The dictionary holds the single bytes and, under 258, 259, ..., the entries of `es`, and nothing else;
      so codes are distinct and below `258 + |es|`. Every prefix of a phrase is a phrase. */
  ghost predicate DictMatches(dict: Dictionary, es: seq<seq<byte>>) {
    && (forall b: byte :: [b] in dict && dict[[b]] == b)
    && (forall s :: s in dict ==> s != [])
    && (forall s :: s in dict && |s| > 1 ==> FIRST <= dict[s] < FIRST + |es| && es[dict[s] - FIRST] == s)
    && (forall j :: 0 <= j < |es| ==> |es[j]| > 1 && es[j] in dict && dict[es[j]] == FIRST + j)
    && (forall s :: s in dict && |s| > 1 ==> s[..|s| - 1] in dict)
  }

  lemma SinglesMatch()
    ensures DictMatches(Singles(), [])
  {
  }

  lemma ExtendMatch(dict: Dictionary, es: seq<seq<byte>>, w: seq<byte>, k: byte)
    requires DictMatches(dict, es) && w in dict && w + [k] !in dict
    ensures DictMatches(dict[w + [k] := FIRST + |es|], es + [w + [k]])
  {
    assert (w + [k])[..|w + [k]| - 1] == w;
    var bigger := dict[w + [k] := FIRST + |es|];
    forall b: byte ensures [b] in bigger && bigger[[b]] == b { assert [b] in dict; }
  }

  /** The entries the encoder has created and the decoder is about to know: the decoder's table
      and the one entry it lags behind. */
  function Entries(st: Encoder, d: Decoder): seq<seq<byte>>
    requires d.Decoder?
  {
    if d.prev == [] || st.w == [] then d.table else d.table + [d.prev + [st.w[0]]]
  }

  /** Encoder and decoder are in step after `data`. */
  ghost predicate InStep(st: Encoder, d: Decoder, data: seq<byte>) {
    && Ready(st)
    && d.Decoder? && !d.ended && d.out + st.w == data
    && (st.w == [] ==> d == DECODER_START && st == START)
    && (d.prev == [] ==> d.table == [])
    && DictMatches(st.dict, Entries(st, d))
    && st.nextCode == FIRST + |Entries(st, d)| <= TABLE_END
  }

  /** Whichever code the encoder writes, known or still one ahead of the table, decodes to the phrase. */
  lemma PhraseDecodes(st: Encoder, d: Decoder, data: seq<byte>)
    requires InStep(st, d, data) && st.w != []
    ensures DecodeStep(d, st.dict[st.w]) == Decoder(Entries(st, d), st.w, data, false)
  {
    var code := st.dict[st.w];
    assert |st.w| == 1 ==> st.w == [st.w[0]] && code == st.w[0];
    if code >= FIRST + |d.table| {
      assert st.w == d.prev + [st.w[0]];
      assert st.w[0] == d.prev[0];
    } else {
      assert Entry(d.table, code) == Some(st.w);
    }
  }

  lemma LongerKeeps(st: Encoder, d: Decoder, data: seq<byte>, k: byte)
    requires InStep(st, d, data) && st.w + [k] in st.dict
    ensures InStep(st.(w := st.w + [k]), d, data + [k])
  {
    hide DictMatches;
    ConcatAssoc(d.out, st.w, [k]);
    assert st.w != [] ==> (st.w + [k])[0] == st.w[0];
  }

  /** After the code of the phrase, the decoder knows every entry the encoder had. */
  lemma DecoderCatchesUp(st: Encoder, d: Decoder, data: seq<byte>)
    requires InStep(st, d, data) && st.w != [] && DecodeRun(Codes(st.writes)) == d
    ensures var out := st.writes + [Write(st.dict[st.w], st.codeSize)];
      DecodeRun(Codes(out)) == Decoder(Entries(st, d), st.w, data, false)
  {
    hide DecodeRun, Codes, Entries, DictMatches;
    PhraseDecodes(st, d, data);
    DecodeAppend(st.writes, Write(st.dict[st.w], st.codeSize));
  }

  lemma ReadyPhrase(st: Encoder)
    requires Ready(st) && st.w != []
    ensures st.w in st.dict
  {
  }

  lemma AddKeeps(st: Encoder, d: Decoder, data: seq<byte>, k: byte, earlyChange: bool)
    requires InStep(st, d, data) && st.w != [] && st.w + [k] !in st.dict && st.nextCode < TABLE_END
    ensures InStep(Emit(st, k, earlyChange), Decoder(Entries(st, d), st.w, data, false), data + [k])
  {
    hide Widened, DictMatches, Ready;
    var es := Entries(st, d);
    var next := Emit(st, k, earlyChange);
    assert st.w in st.dict by { ReadyPhrase(st); }
    ExtendMatch(st.dict, es, st.w, k);
    assert Entries(next, Decoder(es, st.w, data, false)) == es + [st.w + [k]];
  }

  lemma ClearKeeps(st: Encoder, k: byte, data: seq<byte>, earlyChange: bool)
    requires Ready(st) && st.w != [] && st.nextCode >= TABLE_END
    ensures InStep(Emit(st, k, earlyChange), Decoder([], [], data, false), data + [k])
  {
    hide Widened, DictMatches, Singles, Ready;
    SinglesMatch();
  }

  lemma EmitKeeps(st: Encoder, d: Decoder, data: seq<byte>, k: byte, earlyChange: bool)
    requires InStep(st, d, data) && st.w != [] && st.w + [k] !in st.dict && DecodeRun(Codes(st.writes)) == d
    ensures var next := Emit(st, k, earlyChange);
      InStep(next, DecodeRun(Codes(next.writes)), data + [k])
  {
    hide DecodeRun, Widened, Singles, Codes, DictMatches, Entries, Ready;
    ReadyPhrase(st);
    DecoderCatchesUp(st, d, data);
    if st.nextCode < TABLE_END {
      AddKeeps(st, d, data, k, earlyChange);
    } else {
      DecodeAppend(st.writes + [Write(st.dict[st.w], st.codeSize)], Write(CLEAR, st.codeSize));
      ClearKeeps(st, k, data, earlyChange);
    }
  }

  lemma InStepReady(st: Encoder, d: Decoder, data: seq<byte>)
    requires InStep(st, d, data)
    ensures Ready(st)
  {
  }

  lemma StepKeeps(st: Encoder, d: Decoder, data: seq<byte>, k: byte, earlyChange: bool)
    requires InStep(st, d, data) && d == DecodeRun(Codes(st.writes))
    ensures var next := Step(st, k, earlyChange);
      InStep(next, DecodeRun(Codes(next.writes)), data + [k])
  {
    hide DecodeRun, DictMatches, Entries, Emit, Codes, InStep, Singles;
    if st.w + [k] in st.dict {
      LongerKeeps(st, d, data, k);
    } else {
      assert [] + [k] == [k];
      InStepReady(st, d, data);
      EmitKeeps(st, d, data, k, earlyChange);
    }
  }

  lemma InStepAtStart()
    ensures InStep(START, DecodeRun(Codes(START.writes)), [])
  {
    hide Singles;
    SinglesMatch();
    DecodeAppend([], Write(CLEAR, 9));
    assert [] + [Write(CLEAR, 9)] == START.writes;
  }

  lemma {:induction false} RunInStep(data: seq<byte>, earlyChange: bool)
    ensures InStep(Run(data, earlyChange), DecodeRun(Codes(Run(data, earlyChange).writes)), data)
  {
    hide Run, DecodeRun, InStep, Step, Codes, Singles;
    if data == [] {
      RunEmpty(earlyChange);
      InStepAtStart();
    } else {
      var front, last := data[..|data| - 1], data[|data| - 1];
      var st := Run(front, earlyChange);
      RunInStep(front, earlyChange);
      RunLast(data, earlyChange);
      StepKeeps(st, DecodeRun(Codes(st.writes)), front, last, earlyChange);
      assert front + [last] == data;
    }
  }

  lemma FinishPhrase(st: Encoder, d: Decoder, data: seq<byte>)
    requires InStep(st, d, data) && d == DecodeRun(Codes(st.writes)) && st.w != []
    ensures DecodeRun(Codes(Finish(st))) == Decoder(Entries(st, d), st.w, data, true)
  {
    hide DecodeRun, Codes, DictMatches, Entries, Ready;
    ReadyPhrase(st);
    DecoderCatchesUp(st, d, data);
    DecodeAppend(st.writes + [Write(st.dict[st.w], st.codeSize)], Write(END, st.codeSize));
  }

  lemma FinishNothing(st: Encoder, d: Decoder, data: seq<byte>)
    requires InStep(st, d, data) && d == DecodeRun(Codes(st.writes)) && st.w == []
    ensures DecodeRun(Codes(Finish(st))) == Decoder([], [], data, true)
  {
    hide DecodeRun, Codes, DictMatches, Entries, Ready, Singles;
    DecodeAppend(st.writes, Write(END, st.codeSize));
    assert d.out + [] == d.out;
  }

  /** Round trip: the codes written for any data, decoded by the standard's rule, give the data back. */
  lemma RoundTrip(data: seq<byte>, earlyChange: bool)
    ensures var d := DecodeRun(Codes(Encoded(data, earlyChange))); d.Decoder? && d.ended && d.out == data
  {
    hide Run, DecodeRun, Codes, InStep, Finish;
    var st := Run(data, earlyChange);
    RunInStep(data, earlyChange);
    if st.w != [] {
      FinishPhrase(st, DecodeRun(Codes(st.writes)), data);
    } else {
      FinishNothing(st, DecodeRun(Codes(st.writes)), data);
    }
  }

  lemma MatchedCode(dict: Dictionary, es: seq<seq<byte>>, s: seq<byte>)
    requires DictMatches(dict, es) && s in dict
    ensures s != [] && (|s| == 1 ==> s == [s[0]] && dict[s] == s[0])
    ensures |s| > 1 ==> FIRST <= dict[s] < FIRST + |es| && es[dict[s] - FIRST] == s && s[..|s| - 1] in dict
  {
    assert |s| == 1 ==> s == [s[0]];
  }

  lemma MatchedCodesDiffer(dict: Dictionary, es: seq<seq<byte>>, s: seq<byte>, t: seq<byte>)
    requires DictMatches(dict, es) && s in dict && t in dict && dict[s] == dict[t]
    ensures s == t
  {
    hide DictMatches;
    MatchedCode(dict, es, s);
    MatchedCode(dict, es, t);
  }

  /** After any input: codes are distinct and below `nextCode`, and every prefix of a phrase is a phrase. */
  lemma DictionaryInvariant(data: seq<byte>, earlyChange: bool)
    ensures var st := Run(data, earlyChange);
      && FIRST <= st.nextCode <= TABLE_END
      && (forall s :: s in st.dict ==> st.dict[s] < st.nextCode && st.dict[s] != CLEAR && st.dict[s] != END)
      && (forall s, t :: s in st.dict && t in st.dict && st.dict[s] == st.dict[t] ==> s == t)
      && (forall s :: s in st.dict && |s| > 1 ==> s[..|s| - 1] in st.dict)
  {
    hide Run, DecodeRun, Codes, DictMatches, Entries;
    var st := Run(data, earlyChange);
    RunInStep(data, earlyChange);
    var es := Entries(st, DecodeRun(Codes(st.writes)));
    forall s | s in st.dict
      ensures st.dict[s] < st.nextCode && st.dict[s] != CLEAR && st.dict[s] != END
      ensures |s| > 1 ==> s[..|s| - 1] in st.dict
    {
      MatchedCode(st.dict, es, s);
    }
    forall s, t | s in st.dict && t in st.dict && st.dict[s] == st.dict[t] ensures s == t {
      MatchedCodesDiffer(st.dict, es, s, t);
    }
  }

  lemma SinglesOnly()
    ensures forall s :: s in Singles() <==> |s| == 1
  {
  }

  /** A code is written exactly when the phrase that the next byte would make is not in the table, and then it is that
      of the phrase before it: the longest phrase of the table at the front of what is left. The phrase enters the table
      under the next free code, unless it is full: then a Clear is written too, and it holds single bytes again. */
  lemma Greedy(data: seq<byte>, k: byte, earlyChange: bool)
    ensures var st, next := Run(data, earlyChange), Run(data + [k], earlyChange);
      if st.w + [k] in st.dict then next == st.(w := st.w + [k])
      else
        && st.w in st.dict && next.w == [k]
        && |next.writes| == |st.writes| + (if st.nextCode < 4096 then 1 else 2)
        && next.writes[..|st.writes|] == st.writes && next.writes[|st.writes|].code == st.dict[st.w]
        && (st.nextCode < 4096 ==>
              && next.nextCode == st.nextCode + 1
              && st.w + [k] in next.dict && next.dict[st.w + [k]] == st.nextCode
              && forall s :: s != st.w + [k] ==> (s in next.dict <==> s in st.dict))
        && (st.nextCode >= 4096 ==>
              && next.writes[|st.writes| + 1].code == 256 && next.nextCode == 258
              && forall s :: s in next.dict <==> |s| == 1)
  {
    hide Run, Singles, Widened;
    assert (data + [k])[..|data|] == data;
    RunLast(data + [k], earlyChange);
    SinglesOnly();
    var st := Run(data, earlyChange);
    assert st.w == [] ==> st.w + [k] == [k];
    assert st.w + [k] in st.dict || st.w in st.dict;
  }
}
