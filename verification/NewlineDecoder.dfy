// Universal newline decoding (_pyio.py, IncrementalNewlineDecoder): text arrives in
// chunks cut anywhere, and must come out as if it had arrived whole.
module NewlineDecoder {

  const CR: string := "\r"
  const LF: string := "\n"
  const CRLF: string := "\r\n"

  // The bits of seennl.
  const SEEN_LF: bv3 := 1
  const SEEN_CR: bv3 := 2
  const SEEN_CRLF: bv3 := 4

  // ----- str.count and str.replace -----

  predicate StartsWith(s: string, sub: string) { |sub| <= |s| && s[..|sub|] == sub }

  predicate EndsInCR(s: string) { |s| > 0 && s[|s| - 1] == '\r' }

  // Occurrences that do not overlap, from the left.
  function Count(s: string, sub: string): nat
    requires |sub| > 0
  {
    if |s| == 0 then 0
    else if StartsWith(s, sub) then 1 + Count(s[|sub|..], sub)
    else Count(s[1..], sub)
  }

  function Replace(s: string, sub: string, with: string): string
    requires |sub| > 0
  {
    if |s| == 0 then []
    else if StartsWith(s, sub) then with + Replace(s[|sub|..], sub, with)
    else [s[0]] + Replace(s[1..], sub, with)
  }

  lemma {:induction false} NothingToReplace(s: string, sub: string, with: string)
    requires |sub| > 0 && Count(s, sub) == 0
    ensures Replace(s, sub, with) == s
  {
    if |s| > 0 {
      NothingToReplace(s[1..], sub, with);
    }
  }

  // ----- the one-pass scanner -----

  // How many characters a step of the scanner takes: a CRLF whole.
  function Width(s: string): (w: nat)
    ensures 0 < w <= 2
  {
    if StartsWith(s, CRLF) then 2 else 1
  }

  // What a step gives: a line feed for every kind of line end.
  function Shown(s: string): string
    requires |s| > 0
  {
    if StartsWith(s, CR) then LF else [s[0]]
  }

  function KindAt(s: string): bv3 {
    if StartsWith(s, CRLF) then SEEN_CRLF
    else if StartsWith(s, CR) then SEEN_CR
    else if StartsWith(s, LF) then SEEN_LF
    else 0
  }

  // Every line end becomes a line feed.
  function Translate(s: string): string {
    if |s| == 0 then [] else Shown(s) + Translate(s[Width(s)..])
  }

  // The kinds of line ends a scan meets.
  function Kinds(s: string): bv3 {
    if |s| == 0 then 0 else KindAt(s) | Kinds(s[Width(s)..])
  }

  // ----- what the decoder does with one chunk -----

  function CountedKinds(s: string): bv3 {
    var crlf := Count(s, CRLF);
    (if Count(s, LF) - crlf != 0 then SEEN_LF else 0)
    | (if Count(s, CR) - crlf != 0 then SEEN_CR else 0)
    | (if crlf != 0 then SEEN_CRLF else 0)
  }

  // Two passes, each left out when the counts show nothing to replace.
  function Replaced(s: string): string {
    var crlf := Count(s, CRLF);
    var t := if crlf != 0 then Replace(s, CRLF, LF) else s;
    if Count(s, CR) - crlf != 0 then Replace(t, CR, LF) else t
  }

  lemma {:induction false} CountsAreKinds(s: string)
    ensures Count(s, LF) >= Count(s, CRLF) && Count(s, CR) >= Count(s, CRLF)
    ensures Kinds(s) == CountedKinds(s)
  {
    if |s| > 0 {
      CountsAreKinds(s[Width(s)..]);
      if StartsWith(s, CRLF) {
        assert s[1..][1..] == s[2..];
        assert s[0] == '\r' && s[1] == '\n';
      }
    }
  }

  lemma {:induction false} TwoReplacements(s: string)
    ensures Count(s, CR) == Count(s, CRLF) + Count(Replace(s, CRLF, LF), CR)
    ensures Replace(Replace(s, CRLF, LF), CR, LF) == Translate(s)
  {
    if |s| > 0 {
      TwoReplacements(s[Width(s)..]);
      if StartsWith(s, CRLF) {
        assert s[1..][1..] == s[2..];
        assert s[0] == '\r' && s[1] == '\n';
        StepReplaced(LF, Replace(s[2..], CRLF, LF));
      } else {
        StepReplaced([s[0]], Replace(s[1..], CRLF, LF));
      }
    }
  }

  lemma StepReplaced(head: string, tail: string)
    requires |head| == 1
    ensures (head + tail)[1..] == tail && (head + tail)[0] == head[0]
    ensures StartsWith(head + tail, CR) <==> head[0] == '\r'
  {
  }

  // The counts and the two passes see what the one-pass scanner sees.
  lemma TwoPassesAreOneScan(s: string)
    ensures Replaced(s) == Translate(s) && CountedKinds(s) == Kinds(s)
  {
    CountsAreKinds(s);
    TwoReplacements(s);
    if Count(s, CRLF) == 0 {
      NothingToReplace(s, CRLF, LF);
    }
    if Count(s, CR) == Count(s, CRLF) {
      NothingToReplace(Replace(s, CRLF, LF), CR, LF);
    }
  }

  // ----- the kinds, position by position -----

  predicate CrlfAt(s: string, i: nat) { i + 1 < |s| && s[i] == '\r' && s[i + 1] == '\n' }

  predicate CrAt(s: string, i: nat) { i < |s| && s[i] == '\r' && !CrlfAt(s, i) }

  predicate LfAt(s: string, i: nat) { i < |s| && s[i] == '\n' && !(i > 0 && s[i - 1] == '\r') }

  // newlines: the line ends met so far.
  function Newlines(seen: bv3): seq<string> {
    if seen == 0 then []
    else if seen == 1 then [LF]
    else if seen == 2 then [CR]
    else if seen == 3 then [CR, LF]
    else if seen == 4 then [CRLF]
    else if seen == 5 then [LF, CRLF]
    else if seen == 6 then [CR, CRLF]
    else [CR, LF, CRLF]
  }

  // A kind is reported exactly when the text has a line end of that kind.
  lemma NewlinesMeaning(s: string)
    ensures LF in Newlines(Kinds(s)) <==> exists i: nat :: LfAt(s, i)
    ensures CR in Newlines(Kinds(s)) <==> exists i: nat :: CrAt(s, i)
    ensures CRLF in Newlines(Kinds(s)) <==> exists i: nat :: CrlfAt(s, i)
  {
    KindsMeaning(s);
  }

  lemma {:induction false} KindsMeaning(s: string)
    ensures Kinds(s) & SEEN_LF != 0 <==> exists i: nat :: LfAt(s, i)
    ensures Kinds(s) & SEEN_CR != 0 <==> exists i: nat :: CrAt(s, i)
    ensures Kinds(s) & SEEN_CRLF != 0 <==> exists i: nat :: CrlfAt(s, i)
  {
    if |s| > 0 {
      var k := Width(s);
      KindsMeaning(s[k..]);
      FrontKind(s, k);
      hide Kinds, KindAt, LfAt, CrAt, CrlfAt;
      KindsFront(s, k);
      forall i: nat | i >= k
        ensures LfAt(s, i) <==> LfAt(s[k..], i - k)
        ensures CrAt(s, i) <==> CrAt(s[k..], i - k)
        ensures CrlfAt(s, i) <==> CrlfAt(s[k..], i - k)
      {
      }
    }
  }

  lemma KindsFront(s: string, k: nat)
    requires |s| > 0 && k == Width(s)
    ensures Kinds(s) & SEEN_LF != 0 <==> KindAt(s) & SEEN_LF != 0 || Kinds(s[k..]) & SEEN_LF != 0
    ensures Kinds(s) & SEEN_CR != 0 <==> KindAt(s) & SEEN_CR != 0 || Kinds(s[k..]) & SEEN_CR != 0
    ensures Kinds(s) & SEEN_CRLF != 0 <==> KindAt(s) & SEEN_CRLF != 0 || Kinds(s[k..]) & SEEN_CRLF != 0
  {
  }

  // The first scanner step accounts for the line ends before k; those from k on are
  // the ones of the rest.
  lemma FrontKind(s: string, k: nat)
    requires |s| > 0 && k == Width(s)
    ensures KindAt(s) & SEEN_LF != 0 <==> exists i: nat :: i < k && LfAt(s, i)
    ensures KindAt(s) & SEEN_CR != 0 <==> exists i: nat :: i < k && CrAt(s, i)
    ensures KindAt(s) & SEEN_CRLF != 0 <==> exists i: nat :: i < k && CrlfAt(s, i)
    ensures forall i: nat :: LfAt(s[k..], i) <==> LfAt(s, i + k)
    ensures forall i: nat :: CrAt(s[k..], i) <==> CrAt(s, i + k)
    ensures forall i: nat :: CrlfAt(s[k..], i) <==> CrlfAt(s, i + k)
  {
    assert LfAt(s, 0) <==> s[0] == '\n';
    assert CrAt(s, 0) <==> s[0] == '\r' && k == 1;
    assert CrlfAt(s, 0) <==> k == 2;
  }

  // ----- chunks -----

  function Join(parts: seq<string>): string {
    if |parts| == 0 then [] else parts[0] + Join(parts[1..])
  }

  function Held(pending: bool): string { if pending then CR else "" }

  // What is released of a chunk of text: everything but a final carriage return, which
  // may be half of a line end, unless this is the last chunk.
  function Released(pending: bool, text: string, final: bool): string {
    var all := Held(pending) + text;
    if EndsInCR(all) && !final then all[..|all| - 1] else all
  }

  predicate Pending(pending: bool, text: string, final: bool) {
    EndsInCR(Held(pending) + text) && !final
  }

  function Chunks(pending: bool, texts: seq<string>, final: bool): seq<string>
    decreases texts
  {
    if |texts| == 0 then []
    else
      var last := final && |texts| == 1;
      [Released(pending, texts[0], last)] + Chunks(Pending(pending, texts[0], last), texts[1..], final)
  }

  predicate LeftPending(pending: bool, texts: seq<string>, final: bool)
    decreases texts
  {
    if |texts| == 0 then pending
    else LeftPending(Pending(pending, texts[0], final && |texts| == 1), texts[1..], final)
  }

  function TranslateAll(chunks: seq<string>): seq<string> {
    if |chunks| == 0 then [] else [Translate(chunks[0])] + TranslateAll(chunks[1..])
  }

  function KindsOfAll(chunks: seq<string>): bv3 {
    if |chunks| == 0 then 0 else Kinds(chunks[0]) | KindsOfAll(chunks[1..])
  }

  // The boundary between a and b falls inside a CRLF.
  predicate Cut(a: string, b: string) { EndsInCR(a) && StartsWith(b, LF) }

  // No chunk ends inside a CRLF; held is what follows the last one.
  predicate NoneCut(chunks: seq<string>, held: string) {
    |chunks| == 0 || (!Cut(chunks[0], Join(chunks[1..]) + held) && NoneCut(chunks[1..], held))
  }

  // Nothing is lost, added or reordered, and no CRLF is cut.
  lemma {:induction false} ChunksConserve(pending: bool, texts: seq<string>, final: bool)
    ensures var chunks := Chunks(pending, texts, final);
      var left := Held(LeftPending(pending, texts, final));
      && |chunks| == |texts| && Join(chunks) + left == Held(pending) + Join(texts)
      && NoneCut(chunks, left)
      && (final && |texts| > 0 ==> left == "")
    decreases texts
  {
    if |texts| > 0 {
      var last := final && |texts| == 1;
      var next := Pending(pending, texts[0], last);
      ChunksConserve(next, texts[1..], final);
      ReleasedConserves(pending, texts[0], last);
      var first, rest := Released(pending, texts[0], last), Chunks(next, texts[1..], final);
      var left := Held(LeftPending(next, texts[1..], final));
      assert Chunks(pending, texts, final) == [first] + rest;
      assert Held(LeftPending(pending, texts, final)) == left;
      assert last ==> rest == [] && left == "";
      hide Released, Pending, Chunks, LeftPending;
      Associate(first, Join(rest), left, Held(next), Join(texts[1..]));
      Associate(Held(pending), texts[0], Join(texts[1..]), texts[0], Join(texts[1..]));
      assert Join(texts) == texts[0] + Join(texts[1..]);
      JoinFront(first, rest);
      NoneCutFront(first, rest, left);
    }
  }

  lemma Associate(a: string, b: string, c: string, d: string, e: string)
    requires b + c == d + e
    ensures a + b + c == a + d + e == a + (b + c) == a + (d + e)
  {
  }

  lemma JoinFront(first: string, rest: seq<string>)
    ensures Join([first] + rest) == first + Join(rest)
  {
    assert ([first] + rest)[1..] == rest;
  }

  lemma NoneCutFront(first: string, rest: seq<string>, held: string)
    requires NoneCut(rest, held) && !Cut(first, Join(rest) + held)
    ensures NoneCut([first] + rest, held)
  {
    hide Cut, Join;
    assert ([first] + rest)[1..] == rest;
  }

  // What is released and what is held back are the text, and a released carriage
  // return is followed by the one held back.
  lemma ReleasedConserves(pending: bool, text: string, final: bool)
    ensures Released(pending, text, final) + Held(Pending(pending, text, final)) == Held(pending) + text
    ensures EndsInCR(Released(pending, text, final)) && !final ==> Pending(pending, text, final)
  {
  }

  // The code puts the pending carriage return back only before text or at the end.
  lemma HoldsBack(pending: bool, text: string, final: bool)
    ensures var back := pending && (text != "" || final);
      var all := if back then CR + text else text;
      var hold := EndsInCR(all) && !final;
      && Released(pending, text, final) == (if hold then all[..|all| - 1] else all)
      && Pending(pending, text, final) == (hold || (pending && !back))
  {
    assert "" + text == text;
  }

  // ----- scanning chunk by chunk -----

  lemma {:induction false} ScanAppend(a: string, b: string)
    requires !Cut(a, b)
    ensures Translate(a + b) == Translate(a) + Translate(b)
    ensures Kinds(a + b) == Kinds(a) | Kinds(b)
  {
    hide *;
    if |a| == 0 {
      assert a + b == b;
      ScanNothing(a);
      assert a + Translate(b) == Translate(b);
    } else {
      SameFront(a, b);
      var k := Width(a);
      ScanAppend(a[k..], b);
      assert (a + b)[k..] == a[k..] + b;
      ScanStep(a);
      ScanStep(a + b);
      assert Shown(a) + (Translate(a[k..]) + Translate(b)) == Shown(a) + Translate(a[k..]) + Translate(b);
    }
  }

  lemma ScanNothing(s: string)
    requires |s| == 0
    ensures Translate(s) == s && Kinds(s) == 0
  {
  }

  lemma ScanStep(s: string)
    requires |s| > 0
    ensures Width(s) <= |s| && Translate(s) == Shown(s) + Translate(s[Width(s)..])
    ensures Kinds(s) == KindAt(s) | Kinds(s[Width(s)..])
  {
  }

  // What follows does not change the first step, nor is it reached by it.
  lemma SameFront(a: string, b: string)
    requires |a| > 0 && !Cut(a, b)
    ensures Width(a + b) == Width(a) <= |a|
    ensures Shown(a + b) == Shown(a) && KindAt(a + b) == KindAt(a)
    ensures !Cut(a[Width(a)..], b)
  {
    assert (a + b)[0] == a[0];
    if |a| == 1 {
      if |b| > 0 {
        assert (a + b)[..2] == [a[0], b[0]] && b[..1] == [b[0]];
      }
      assert StartsWith(a + b, CRLF) <==> a[0] == '\r' && StartsWith(b, LF);
    } else {
      assert (a + b)[1] == a[1];
    }
  }

  lemma {:induction false} ScanChunks(chunks: seq<string>, held: string)
    requires NoneCut(chunks, held)
    ensures Join(TranslateAll(chunks)) + Translate(held) == Translate(Join(chunks) + held)
    ensures KindsOfAll(chunks) | Kinds(held) == Kinds(Join(chunks) + held)
  {
    hide *;
    if |chunks| == 0 {
      NoChunks(chunks);
      assert [] + held == held && [] + Translate(held) == Translate(held);
    } else {
      var first, rest := chunks[0], chunks[1..];
      var shown := Join(TranslateAll(rest));
      FirstChunk(chunks, held);
      ScanChunks(rest, held);
      ScanAppend(first, Join(rest) + held);
      assert Join(chunks) + held == first + (Join(rest) + held);
      assert Translate(first) + shown + Translate(held) == Translate(first) + (shown + Translate(held));
    }
  }

  lemma NoChunks(chunks: seq<string>)
    requires |chunks| == 0
    ensures Join(chunks) == [] && Join(TranslateAll(chunks)) == [] && KindsOfAll(chunks) == 0
  {
  }

  lemma FirstChunk(chunks: seq<string>, held: string)
    requires |chunks| > 0 && NoneCut(chunks, held)
    ensures Join(chunks) == chunks[0] + Join(chunks[1..])
    ensures Join(TranslateAll(chunks)) == Translate(chunks[0]) + Join(TranslateAll(chunks[1..]))
    ensures KindsOfAll(chunks) == Kinds(chunks[0]) | KindsOfAll(chunks[1..])
    ensures !Cut(chunks[0], Join(chunks[1..]) + held) && NoneCut(chunks[1..], held)
  {
    hide Cut, Translate, Kinds;
    assert TranslateAll(chunks) == [Translate(chunks[0])] + TranslateAll(chunks[1..]);
    JoinFront(Translate(chunks[0]), TranslateAll(chunks[1..]));
  }

  // However a text is cut, the released chunks are the text, its translation is the
  // translation of the chunks, and the kinds seen are the kinds it has.
  lemma ChunkIndependence(texts: seq<string>)
    requires |texts| > 0
    ensures var chunks := Chunks(false, texts, true);
      && Join(chunks) == Join(texts)
      && Join(TranslateAll(chunks)) == Translate(Join(texts))
      && KindsOfAll(chunks) == Kinds(Join(texts))
  {
    var chunks := Chunks(false, texts, true);
    ChunksConserve(false, texts, true);
    ScanChunks(chunks, "");
    assert Join(chunks) + "" == Join(chunks) && "" + Join(texts) == Join(texts);
    assert Translate("") == "" && Join(TranslateAll(chunks)) + "" == Join(TranslateAll(chunks));
  }

  // ----- the decoder -----

  type Bytes = seq<bv8>

  // What getstate returns.
  datatype State = State(buf: Bytes, flag: int)

  // One call of an inner decoder: its next state and the text it gives.
  type InnerStep = (State, Bytes, bool) -> (State, string)

  datatype Option<T> = None | Some(value: T)

  // An incremental decoder whose state is all in what getstate returns.
  class InnerDecoder {
    const step: InnerStep
    const initial: State
    var state: State

    constructor (step: InnerStep, initial: State)
      ensures this.step == step && this.initial == initial && state == initial
    {
      this.step, this.initial, this.state := step, initial, initial;
    }

    method Decode(input: Bytes, final: bool) returns (text: string)
      modifies this
      ensures (state, text) == step(old(state), input, final)
    {
      var (next, t) := step(state, input, final);
      state, text := next, t;
    }
  }

  // Without an inner decoder the input is text already.
  datatype Input = Text(s: string) | Raw(b: Bytes)

  predicate Suits(input: Input, step: Option<InnerStep>) { step.None? <==> input.Text? }

  function Decoded(step: Option<InnerStep>, st: State, input: Input, final: bool): (State, string)
    requires Suits(input, step)
  {
    if step.None? then (st, input.s) else step.value(st, input.b, final)
  }

  // The texts of a run of inputs.
  function Texts(step: Option<InnerStep>, st: State, inputs: seq<Input>, final: bool): (texts: seq<string>)
    requires forall x :: x in inputs ==> Suits(x, step)
    ensures |texts| == |inputs|
    decreases inputs
  {
    if |inputs| == 0 then []
    else
      var (next, text) := Decoded(step, st, inputs[0], final && |inputs| == 1);
      [text] + Texts(step, next, inputs[1..], final)
  }

  function ShowAll(translate: bool, chunks: seq<string>): seq<string> {
    if translate then TranslateAll(chunks) else chunks
  }

  class IncrementalNewlineDecoder {
    const decoder: InnerDecoder?
    const translate: bool
    var seennl: bv3
    var pendingcr: bool

    constructor (decoder: InnerDecoder?, translate: bool)
      ensures this.decoder == decoder && this.translate == translate && seennl == 0 && !pendingcr
    {
      this.decoder, this.translate, this.seennl, this.pendingcr := decoder, translate, 0, false;
    }

    ghost function Step(): Option<InnerStep> {
      if decoder == null then None else Some(decoder.step)
    }

    ghost function Inner(): State
      reads decoder
    {
      if decoder == null then State([], 0) else decoder.state
    }

    method Decode(input: Input, final: bool) returns (output: string)
      requires Suits(input, Step())
      modifies this, decoder
      ensures var (st, text) := Decoded(Step(), old(Inner()), input, final);
        var chunk := Released(old(pendingcr), text, final);
        && Inner() == st && pendingcr == Pending(old(pendingcr), text, final)
        && output == (if translate then Translate(chunk) else chunk)
        && seennl == old(seennl) | Kinds(chunk)
    {
      hide Released, Pending, Translate, Kinds;
      if decoder == null {
        output := input.s;
      } else {
        output := decoder.Decode(input.b, final);
      }
      HoldsBack(pendingcr, output, final);
      if pendingcr && (output != "" || final) {
        output := CR + output;
        pendingcr := false;
      }
      if EndsInCR(output) && !final {
        output := output[..|output| - 1];
        pendingcr := true;
      }
      output := RecordAndTranslate(output);
    }

    // The second half of decode: the kinds are recorded, then translated.
    method RecordAndTranslate(chunk: string) returns (output: string)
      modifies this`seennl
      ensures output == (if translate then Translate(chunk) else chunk)
      ensures seennl == old(seennl) | Kinds(chunk)
    {
      hide Count, Replace, Translate, Kinds;
      output := chunk;
      TwoPassesAreOneScan(output);
      var crlf := Count(output, CRLF);
      var cr := Count(output, CR) - crlf;
      var lf := Count(output, LF) - crlf;
      seennl := seennl | ((if lf != 0 then SEEN_LF else 0)
                          | (if cr != 0 then SEEN_CR else 0)
                          | (if crlf != 0 then SEEN_CRLF else 0));
      if translate {
        if crlf != 0 {
          output := Replace(output, CRLF, LF);
        }
        if cr != 0 {
          output := Replace(output, CR, LF);
        }
      }
    }

    // getstate: the pending carriage return is the lowest bit of the flag.
    method GetState() returns (state: State)
      ensures state == State(Inner().buf, 2 * Inner().flag + if pendingcr then 1 else 0)
    {
      var inner := State([], 0);
      if decoder != null {
        inner := decoder.state;
      }
      var flag := inner.flag * 2;
      if pendingcr {
        flag := flag + 1;
      }
      state := State(inner.buf, flag);
    }

    method SetState(state: State)
      modifies this`pendingcr, decoder
      ensures pendingcr <==> state.flag % 2 == 1
      ensures decoder != null ==> Inner() == State(state.buf, state.flag / 2)
    {
      pendingcr := state.flag % 2 == 1;
      if decoder != null {
        decoder.state := State(state.buf, state.flag / 2);
      }
    }

    method Reset()
      modifies this, decoder
      ensures seennl == 0 && !pendingcr
      ensures decoder != null ==> Inner() == decoder.initial
    {
      seennl, pendingcr := 0, false;
      if decoder != null {
        decoder.state := decoder.initial;
      }
    }

    // A run over all the inputs, the last one marked final or not.
    method DecodeAll(inputs: seq<Input>, final: bool) returns (outputs: seq<string>)
      requires forall x :: x in inputs ==> Suits(x, Step())
      modifies this, decoder
      ensures var texts := Texts(Step(), old(Inner()), inputs, final);
        var chunks := Chunks(old(pendingcr), texts, final);
        && outputs == ShowAll(translate, chunks)
        && seennl == old(seennl) | KindsOfAll(chunks)
        && pendingcr == LeftPending(old(pendingcr), texts, final)
    {
      hide Released, Pending, Decoded, Texts, Chunks, LeftPending, ShowAll, KindsOfAll, Translate, Kinds, Suits;
      outputs := [];
      ghost var texts := Texts(Step(), Inner(), inputs, final);
      ghost var chunks := Chunks(pendingcr, texts, final);
      ghost var left := LeftPending(pendingcr, texts, final);
      assert inputs[0..] == inputs;
      var i := 0;
      while i < |inputs|
        invariant 0 <= i <= |inputs|
        invariant var ts := Texts(Step(), Inner(), inputs[i..], final);
          var cs := Chunks(pendingcr, ts, final);
          && outputs + ShowAll(translate, cs) == ShowAll(translate, chunks)
          && seennl | KindsOfAll(cs) == old(seennl) | KindsOfAll(chunks)
          && LeftPending(pendingcr, ts, final) == left
      {
        RunStep(Step(), Inner(), pendingcr, inputs[i..], final, translate);
        assert inputs[i..][0] == inputs[i] && inputs[i..][1..] == inputs[i + 1..];
        var output := Decode(inputs[i], final && i == |inputs| - 1);
        outputs := outputs + [output];
        i := i + 1;
      }
      RunEnd(Step(), Inner(), pendingcr, inputs[i..], final, translate);
    }
  }

  // A decoder put in the state of another goes on exactly as the other would.  The
  // kinds seen so far are not part of the state.
  method Resume(a: IncrementalNewlineDecoder, b: IncrementalNewlineDecoder, inputs: seq<Input>, final: bool)
    returns (ofA: seq<string>, ofB: seq<string>)
    requires a != b && a.translate == b.translate && a.Step() == b.Step()
    requires a.decoder != null ==> a.decoder != b.decoder
    requires forall x :: x in inputs ==> Suits(x, a.Step())
    modifies a, b, a.decoder, b.decoder
    ensures ofA == ofB && a.pendingcr == b.pendingcr
  {
    hide Released, Pending, Decoded, Texts, Chunks, LeftPending, ShowAll, KindsOfAll, Suits;
    var state := a.GetState();
    b.SetState(state);
    ofA := a.DecodeAll(inputs, final);
    ofB := b.DecodeAll(inputs, final);
  }

  // A new decoder without an inner one, fed a text in any pieces.
  method DecodeText(texts: seq<string>, translate: bool) returns (output: string, kinds: seq<string>)
    requires |texts| > 0
    ensures output == if translate then Translate(Join(texts)) else Join(texts)
    ensures LF in kinds <==> exists i: nat :: LfAt(Join(texts), i)
    ensures CR in kinds <==> exists i: nat :: CrAt(Join(texts), i)
    ensures CRLF in kinds <==> exists i: nat :: CrlfAt(Join(texts), i)
  {
    var d := new IncrementalNewlineDecoder(null, translate);
    var inputs := seq(|texts|, i requires 0 <= i < |texts| => Input.Text(texts[i]));
    TextsOfInputs(texts, inputs, State([], 0), true);
    hide Released, Pending, Chunks, LeftPending, Texts, KindsOfAll, Kinds, TranslateAll, Translate;
    var outputs := d.DecodeAll(inputs, true);
    ChunkIndependence(texts);
    NewlinesMeaning(Join(texts));
    assert 0 | Kinds(Join(texts)) == Kinds(Join(texts));
    output, kinds := Join(outputs), Newlines(d.seennl);
  }

  lemma {:induction false} TextsOfInputs(texts: seq<string>, inputs: seq<Input>, st: State, final: bool)
    requires |inputs| == |texts| && forall i :: 0 <= i < |texts| ==> inputs[i] == Input.Text(texts[i])
    ensures forall x :: x in inputs ==> Suits(x, None)
    ensures Texts(None, st, inputs, final) == texts
    decreases texts
  {
    if |texts| > 0 {
      TextsOfInputs(texts[1..], inputs[1..], st, final);
      assert texts == [texts[0]] + texts[1..];
      assert inputs == [inputs[0]] + inputs[1..];
    }
  }

  // The first call of a run, and the run of the rest.
  lemma RunStep(step: Option<InnerStep>, st: State, pending: bool, inputs: seq<Input>, final: bool, translate: bool)
    requires |inputs| > 0 && forall x :: x in inputs ==> Suits(x, step)
    ensures var last := final && |inputs| == 1;
      var (next, text) := Decoded(step, st, inputs[0], last);
      var chunk, held := Released(pending, text, last), Pending(pending, text, last);
      var texts, rest := Texts(step, st, inputs, final), Texts(step, next, inputs[1..], final);
      var cs, ds := Chunks(pending, texts, final), Chunks(held, rest, final);
      && ShowAll(translate, cs) == [if translate then Translate(chunk) else chunk] + ShowAll(translate, ds)
      && KindsOfAll(cs) == Kinds(chunk) | KindsOfAll(ds)
      && LeftPending(pending, texts, final) == LeftPending(held, rest, final)
  {
    hide Released, Pending, Decoded, Translate, Kinds;
    var last := final && |inputs| == 1;
    var (next, text) := Decoded(step, st, inputs[0], last);
    var texts, rest := Texts(step, st, inputs, final), Texts(step, next, inputs[1..], final);
    assert texts == [text] + rest;
    hide Texts;
    assert texts[0] == text && texts[1..] == rest;
    var chunk, held := Released(pending, text, last), Pending(pending, text, last);
    var cs, ds := Chunks(pending, texts, final), Chunks(held, rest, final);
    assert cs == [chunk] + ds;
    assert cs[0] == chunk && cs[1..] == ds;
  }

  lemma RunEnd(step: Option<InnerStep>, st: State, pending: bool, inputs: seq<Input>, final: bool, translate: bool)
    requires |inputs| == 0
    ensures var texts := Texts(step, st, inputs, final);
      && ShowAll(translate, Chunks(pending, texts, final)) == []
      && KindsOfAll(Chunks(pending, texts, final)) == 0
      && LeftPending(pending, texts, final) == pending
  {
  }
}
