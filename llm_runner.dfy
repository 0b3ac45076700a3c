/**
 * The buffer operations of llm_runner.cpp that do not call into llama.cpp:
 * trim_inplace on the generated text, and the llama_batch slots written by
 * batch_add, by the prompt fill loop and by the single-token decode step.
 */
module LlmRunner {

  // -------------------------------------------------------- trim_inplace

  /** The four characters trim_inplace strips. */
  predicate IsSpace(c: char) {
    c == ' ' || c == '\n' || c == '\r' || c == '\t'
  }

  /** `s` without its trailing spaces. */
  function TrimEnd(s: string): (r: string)
    ensures |r| <= |s| && r == s[..|r|]
    ensures r != [] ==> !IsSpace(r[|r| - 1])
    ensures forall i :: |r| <= i < |s| ==> IsSpace(s[i])
  {
    if s != [] && IsSpace(s[|s| - 1]) then TrimEnd(s[..|s| - 1]) else s
  }

  /** `s` without its leading spaces. */
  function TrimStart(s: string): (r: string)
    ensures |r| <= |s| && r == s[|s| - |r|..]
    ensures r != [] ==> !IsSpace(r[0])
    ensures forall i :: 0 <= i < |s| - |r| ==> IsSpace(s[i])
  {
    if s != [] && IsSpace(s[0]) then TrimStart(s[1..]) else s
  }

  function Trimmed(s: string): string {
    TrimStart(TrimEnd(s))
  }

  /**
   * trim_inplace: pop trailing spaces, count the leading ones, erase them.
   * The string is passed by value and the trimmed string returned.
   */
  method TrimInPlace(s: string) returns (t: string)
    ensures t == Trimmed(s)
  {
    t := s;
    while t != [] && IsSpace(t[|t| - 1])
      invariant TrimEnd(t) == TrimEnd(s)
      decreases |t|
    {
      t := t[..|t| - 1];
    }
    var i := 0;
    while i < |t| && IsSpace(t[i])
      invariant 0 <= i <= |t|
      invariant TrimStart(t[i..]) == TrimStart(t)
    {
      assert t[i..][1..] == t[i + 1..];
      i := i + 1;
    }
    t := t[i..];
  }

  /** Neither end of the result is one of the stripped characters. */
  lemma TrimmedEnds(s: string)
    ensures var t := Trimmed(s); t != [] ==> !IsSpace(t[0]) && !IsSpace(t[|t| - 1])
  {
    var e := TrimEnd(s);
    var t := TrimStart(e);
    if t != [] {
      assert t[|t| - 1] == e[|e| - 1];
    }
  }

  /**
   * Only the ends are removed: the result is the slice s[lo..hi], every
   * character outside it is a stripped one, and the interior is kept as is.
   */
  lemma TrimmedSlice(s: string)
    ensures var hi := |TrimEnd(s)|; var lo := hi - |Trimmed(s)|;
      0 <= lo <= hi <= |s| && Trimmed(s) == s[lo..hi]
      && (forall i :: 0 <= i < lo ==> IsSpace(s[i]))
      && (forall i :: hi <= i < |s| ==> IsSpace(s[i]))
  {
    var e := TrimEnd(s);
    var hi := |e|;
    var t := TrimStart(e);
    var lo := hi - |t|;
    assert t == Trimmed(s) && t == e[lo..];
    assert e == s[..hi];
    assert e[lo..] == s[lo..hi];
    forall i | 0 <= i < lo
      ensures IsSpace(s[i])
    {
      assert e[i] == s[i];
    }
  }

  /** Trimming twice trims nothing more. */
  lemma TrimIdempotent(s: string)
    ensures Trimmed(Trimmed(s)) == Trimmed(s)
  {
    TrimmedEnds(s);
  }

  /** The result is empty exactly when every character is a stripped one. */
  lemma TrimmedEmpty(s: string)
    ensures Trimmed(s) == [] <==> forall i :: 0 <= i < |s| ==> IsSpace(s[i])
  {
    TrimmedSlice(s);
  }

  // --------------------------------------------------------- llama_batch

  /**
   * The parts of a llama_batch the code writes: parallel arrays of
   * `capacity` slots and the count `nTokens` of slots in use.
   */
  class Batch {
    var nTokens: int
    const capacity: nat
    const token: array<int>
    const pos: array<int>
    const nSeqId: array<int>
    const seqId: array2<int>
    const logits: array<int>

    ghost predicate Valid()
      reads this
    {
      && token.Length == capacity && pos.Length == capacity && nSeqId.Length == capacity
      && logits.Length == capacity && seqId.Length0 == capacity && seqId.Length1 >= 1
      && token != pos && token != nSeqId && token != logits
      && pos != nSeqId && pos != logits && nSeqId != logits
      && 0 <= nTokens <= capacity
    }

    /**
     * llama_batch_init(capacity, 0, nSeqMax) followed by `n_tokens = 0`;
     * the contents of the freshly allocated slots are unspecified.
     */
    constructor Init(cap: nat, nSeqMax: nat)
      requires nSeqMax >= 1
      ensures Valid() && capacity == cap && nTokens == 0 && seqId.Length1 == nSeqMax
      ensures fresh(token) && fresh(pos) && fresh(nSeqId) && fresh(seqId) && fresh(logits)
    {
      capacity := cap;
      token := new int[cap];
      pos := new int[cap];
      nSeqId := new int[cap];
      seqId := new int[cap, nSeqMax];
      logits := new int[cap];
      nTokens := 0;
    }

    /**
     * batch_add: writes slot `nTokens` and counts it. The slot must exist;
     * the code does not check this itself.
     */
    method BatchAdd(tok: int, p: int, sq: int, wantLogits: bool)
      requires Valid() && nTokens < capacity
      modifies this, token, pos, nSeqId, seqId, logits
      ensures Valid() && nTokens == old(nTokens) + 1
      ensures token[..] == old(token[..])[old(nTokens) := tok]
      ensures pos[..] == old(pos[..])[old(nTokens) := p]
      ensures nSeqId[..] == old(nSeqId[..])[old(nTokens) := 1]
      ensures logits[..] == old(logits[..])[old(nTokens) := if wantLogits then 1 else 0]
      ensures forall r, c :: 0 <= r < seqId.Length0 && 0 <= c < seqId.Length1 ==>
        seqId[r, c] == if r == old(nTokens) && c == 0 then sq else old(seqId[r, c])
    {
      var i := nTokens;
      token[i] := tok;
      pos[i] := p;
      nSeqId[i] := 1;
      seqId[i, 0] := sq;
      logits[i] := if wantLogits then 1 else 0;
      nTokens := nTokens + 1;
    }
  }

  /** Slot `i` of a filled prompt batch: token i at position i of sequence 0. */
  ghost predicate PromptSlot(b: Batch, tokens: seq<int>, i: int)
    requires b.Valid() && 0 <= i < |tokens| <= b.capacity
    reads b, b.token, b.pos, b.nSeqId, b.seqId, b.logits
  {
    && b.token[i] == tokens[i] && b.pos[i] == i && b.nSeqId[i] == 1 && b.seqId[i, 0] == 0
    && b.logits[i] == (if i == |tokens| - 1 then 1 else 0)
  }

  /**
   * The prompt fill loop: one slot per prompt token, logits requested for
   * the last token only, so that the decode produces a single output.
   */
  method FillPromptBatch(tokens: seq<int>) returns (b: Batch)
    ensures fresh(b) && b.Valid() && b.capacity == |tokens| && b.nTokens == |tokens|
    ensures forall i :: 0 <= i < |tokens| ==> PromptSlot(b, tokens, i)
  {
    b := new Batch.Init(|tokens|, 1);
    var i := 0;
    while i < |tokens|
      invariant 0 <= i <= |tokens|
      invariant b.Valid() && b.capacity == |tokens| && b.nTokens == i
      invariant fresh(b.token) && fresh(b.pos) && fresh(b.nSeqId) && fresh(b.seqId) && fresh(b.logits)
      invariant forall k :: 0 <= k < i ==> b.token[k] == tokens[k] && b.pos[k] == k && b.nSeqId[k] == 1
      invariant forall k :: 0 <= k < i ==> b.seqId[k, 0] == 0
      invariant forall k :: 0 <= k < i ==> b.logits[k] == (if k == |tokens| - 1 then 1 else 0)
    {
      var wantLogits := i == |tokens| - 1;
      b.BatchAdd(tokens[i], i, 0, wantLogits);
      i := i + 1;
    }
  }

  /** The single-token batch of each generation step: the sampled token at `nPast`, with logits. */
  method StepBatch(tok: int, nPast: int) returns (b: Batch)
    ensures fresh(b) && b.Valid() && b.capacity == 1 && b.nTokens == 1
    ensures b.token[0] == tok && b.pos[0] == nPast && b.nSeqId[0] == 1 && b.seqId[0, 0] == 0 && b.logits[0] == 1
  {
    b := new Batch.Init(1, 1);
    b.BatchAdd(tok, nPast, 0, true);
  }

  /** Only the last prompt slot asks for logits, so the batch has exactly one output. */
  lemma OneOutput(b: Batch, tokens: seq<int>)
    requires b.Valid() && 0 < |tokens| <= b.capacity
    requires forall i :: 0 <= i < |tokens| ==> PromptSlot(b, tokens, i)
    ensures forall i :: 0 <= i < |tokens| ==> (b.logits[i] == 1 <==> i == |tokens| - 1)
  {
    forall i | 0 <= i < |tokens|
      ensures b.logits[i] == 1 <==> i == |tokens| - 1
    {
      assert PromptSlot(b, tokens, i);
    }
  }
}
