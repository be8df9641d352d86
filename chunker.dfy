/** `PolishRAGSystem.split_text` (rag/database.py): greedy packing of
    whitespace-separated words into chunks of an approximate size, where each
    chunk after the first is seeded with the tail of the chunk before it.

    The packing is specified by `Pack`, a fold of `Step` over the words, and the
    method `SplitText` runs the loop of the source and is proved to compute it.
    The lemmas at the end state what the packing guarantees. */
module Chunker {
  import opened PyText

  /** `sum(len(t) + 1 for t in ts)`: the length estimate the chunker uses,
      one separator counted per word. */
  function ApproxLength(ts: seq<string>): nat
  {
    if ts == [] then 0 else ApproxLength(ts[..|ts| - 1]) + |ts[|ts| - 1]| + 1
  }

  /** The seed of the next chunk after `current` is closed:
      `current[-overlap:] if len(current) > overlap else current`. */
  function Overlap(current: seq<string>, overlap: int): (seed: seq<string>)
    ensures 0 <= overlap ==> |seed| == if 0 < overlap < |current| then overlap else |current|
  {
    if |current| > overlap then SliceFrom(current, -overlap) else current
  }

  /** What the seed expression evaluates to, case by case. Python reads
      `current[-0:]` as the whole list, and a negative overlap as a slice from
      the start that drops the first `-overlap` words. */
  lemma OverlapRule(current: seq<string>, overlap: int)
    ensures 0 < overlap < |current| ==> Overlap(current, overlap) == current[|current| - overlap..]
    ensures overlap == 0 || |current| <= overlap ==> Overlap(current, overlap) == current
    ensures overlap < 0 ==>
      Overlap(current, overlap) == current[(if -overlap <= |current| then -overlap else |current|)..]
  {
  }

  /** The seed is always a tail of the closed chunk. */
  lemma OverlapIsSuffix(current: seq<string>, overlap: int)
    ensures var seed := Overlap(current, overlap);
      |seed| <= |current| && seed == current[|current| - |seed|..]
  {
  }

  /** The loop state of `split_text`: the chunks emitted so far, as word lists,
      and the chunk being filled. */
  datatype Packing = Packing(closed: seq<seq<string>>, current: seq<string>)

  /** Whether word `t` makes the chunk being filled overflow `size` and close. */
  predicate Closes(p: Packing, t: string, size: int)
  {
    ApproxLength(p.current) + |t| + 1 > size && p.current != []
  }

  /** One iteration of the loop body for word `t`. */
  function Step(p: Packing, t: string, size: int, overlap: int): Packing
  {
    if Closes(p, t, size) then Packing(p.closed + [p.current], Overlap(p.current, overlap) + [t])
    else Packing(p.closed, p.current + [t])
  }

  /** The loop state after all of `ts` has been consumed. */
  function Pack(ts: seq<string>, size: int, overlap: int): Packing
  {
    if ts == [] then Packing([], [])
    else Step(Pack(ts[..|ts| - 1], size, overlap), ts[|ts| - 1], size, overlap)
  }

  /** The chunks a packing stands for: the closed ones, then the trailing one if it is non-empty. */
  function Emitted(p: Packing): seq<seq<string>>
  {
    if p.current == [] then p.closed else p.closed + [p.current]
  }

  /** The chunks of `split_text`, as word lists. */
  function ChunkTokens(ts: seq<string>, size: int, overlap: int): seq<seq<string>>
  {
    Emitted(Pack(ts, size, overlap))
  }

  /** `[" ".join(c) for c in cs]`. */
  function JoinEach(cs: seq<seq<string>>): seq<string>
  {
    seq(|cs|, i requires 0 <= i < |cs| => Join(" ", cs[i]))
  }

  /** The result of `split_text(text, size, overlap)`. */
  function SplitTextSpec(text: string, size: int, overlap: int): seq<string>
  {
    JoinEach(ChunkTokens(Split(text), size, overlap))
  }

  method SplitText(text: string, chunkSize: int, chunkOverlap: int) returns (chunks: seq<string>)
    ensures chunks == SplitTextSpec(text, chunkSize, chunkOverlap)
  {
    var tokens := Split(text);
    chunks := [];
    var currentChunk: seq<string> := [];
    var currentLength := 0;
    ghost var closed: seq<seq<string>> := [];
    for i := 0 to |tokens|
      invariant Pack(tokens[..i], chunkSize, chunkOverlap) == Packing(closed, currentChunk)
      invariant chunks == JoinEach(closed)
      invariant currentLength == ApproxLength(currentChunk)
    {
      var token := tokens[i];
      var tokenLength := |token| + 1;
      PackNext(tokens, i, chunkSize, chunkOverlap);
      if currentLength + tokenLength > chunkSize && currentChunk != [] {
        var chunk := Join(" ", currentChunk);
        JoinEachAppend(closed, currentChunk);
        chunks := chunks + [chunk];
        closed := closed + [currentChunk];
        var overlap := if |currentChunk| > chunkOverlap then SliceFrom(currentChunk, -chunkOverlap) else currentChunk;
        currentChunk := overlap;
        currentLength := ApproxLength(currentChunk);
      }
      ApproxLengthAppend(currentChunk, token);
      currentChunk := currentChunk + [token];
      currentLength := currentLength + tokenLength;
    }
    assert tokens[..|tokens|] == tokens;
    if currentChunk != [] {
      JoinEachAppend(closed, currentChunk);
      chunks := chunks + [Join(" ", currentChunk)];
    }
  }

  /** Consuming word `i` is one more loop step. */
  lemma PackNext(ts: seq<string>, i: nat, size: int, overlap: int)
    requires i < |ts|
    ensures Pack(ts[..i + 1], size, overlap) == Step(Pack(ts[..i], size, overlap), ts[i], size, overlap)
  {
    assert ts[..i + 1][..i] == ts[..i];
  }

  lemma JoinEachAppend(cs: seq<seq<string>>, c: seq<string>)
    ensures JoinEach(cs + [c]) == JoinEach(cs) + [Join(" ", c)]
  {
  }

  lemma ApproxLengthAppend(ts: seq<string>, t: string)
    ensures ApproxLength(ts + [t]) == ApproxLength(ts) + |t| + 1
  {
    assert (ts + [t])[..|ts|] == ts;
  }

  // ---------------------------------------------------------------------------
  // Shape of the emitted chunks

  /** Chunk `c` starts with the seed taken from `prev`, has at least one word after
      it, and that word is the one that made `prev` overflow `size`. */
  predicate Follows(prev: seq<string>, c: seq<string>, size: int, overlap: int)
  {
    var n := |Overlap(prev, overlap)|;
    n < |c| && c[..n] == Overlap(prev, overlap) && ApproxLength(prev) + |c[n]| + 1 > size
  }

  /** Chunk `c` with a seed of `seedLength` words fits in `size`, or is its seed plus a single word. */
  predicate FitsOrMinimal(c: seq<string>, seedLength: nat, size: int)
  {
    ApproxLength(c) <= size || |c| == seedLength + 1
  }

  /** The invariant of the packing loop, stated on the emitted chunks. */
  predicate WellPacked(cs: seq<seq<string>>, size: int, overlap: int)
  {
    (forall i :: 0 <= i < |cs| ==> cs[i] != [])
    && (|cs| > 0 ==> FitsOrMinimal(cs[0], 0, size))
    && (forall i :: 1 <= i < |cs| ==>
          Follows(cs[i - 1], cs[i], size, overlap)
          && FitsOrMinimal(cs[i], |Overlap(cs[i - 1], overlap)|, size))
  }

  /** The words chunk `c` adds beyond the seed it took from `prev`. */
  function Fresh(prev: seq<string>, c: seq<string>, overlap: int): seq<string>
  {
    var n := |Overlap(prev, overlap)|;
    if n <= |c| then c[n..] else []
  }

  /** The first chunk's words, then each later chunk's words with its seed removed. */
  function Reassemble(cs: seq<seq<string>>, overlap: int): seq<string>
  {
    if |cs| == 0 then []
    else if |cs| == 1 then cs[0]
    else Reassemble(cs[..|cs| - 1], overlap) + Fresh(cs[|cs| - 2], cs[|cs| - 1], overlap)
  }

  /** A chunk that follows `prev` still does after a word is appended to it. */
  lemma FollowsExtend(prev: seq<string>, c: seq<string>, t: string, size: int, overlap: int)
    requires Follows(prev, c, size, overlap)
    ensures Follows(prev, c + [t], size, overlap)
    ensures Fresh(prev, c + [t], overlap) == Fresh(prev, c, overlap) + [t]
  {
    var m := |Overlap(prev, overlap)|;
    assert (c + [t])[..m] == c[..m];
    assert (c + [t])[m] == c[m];
    assert (c + [t])[m..] == c[m..] + [t];
  }

  /** Appending a word to the last emitted chunk keeps the invariant. */
  lemma ExtendLast(cs: seq<seq<string>>, t: string, size: int, overlap: int)
    requires |cs| > 0 && WellPacked(cs, size, overlap)
    requires ApproxLength(cs[|cs| - 1]) + |t| + 1 <= size
    ensures WellPacked(cs[..|cs| - 1] + [cs[|cs| - 1] + [t]], size, overlap)
  {
    var n := |cs| - 1;
    var last := cs[n];
    var ds := cs[..n] + [last + [t]];
    ApproxLengthAppend(last, t);
    assert ApproxLength(ds[n]) <= size;
    forall i | 0 <= i < n
      ensures ds[i] == cs[i]
    {
    }
    forall i | 1 <= i < |ds|
      ensures Follows(ds[i - 1], ds[i], size, overlap)
      ensures FitsOrMinimal(ds[i], |Overlap(ds[i - 1], overlap)|, size)
    {
      if i == n {
        FollowsExtend(cs[n - 1], last, t, size, overlap);
      } else {
        assert Follows(cs[i - 1], cs[i], size, overlap);
      }
    }
  }

  /** Closing the last emitted chunk on word `t` and opening a seeded one keeps
      the invariant. */
  lemma CloseLast(cs: seq<seq<string>>, t: string, size: int, overlap: int)
    requires |cs| > 0 && WellPacked(cs, size, overlap)
    requires ApproxLength(cs[|cs| - 1]) + |t| + 1 > size
    ensures WellPacked(cs + [Overlap(cs[|cs| - 1], overlap) + [t]], size, overlap)
  {
    var last := cs[|cs| - 1];
    var seed := Overlap(last, overlap);
    var ds := cs + [seed + [t]];
    assert (seed + [t])[..|seed|] == seed;
    assert (seed + [t])[|seed|] == t;
    assert Follows(last, seed + [t], size, overlap);
    assert ds[..|cs|] == cs;
  }

  /** One loop iteration keeps the invariant. */
  lemma StepKeeps(p: Packing, t: string, size: int, overlap: int)
    requires p.current == [] ==> p.closed == []
    requires WellPacked(Emitted(p), size, overlap)
    ensures Step(p, t, size, overlap).current != []
    ensures WellPacked(Emitted(Step(p, t, size, overlap)), size, overlap)
  {
    var cs := Emitted(p);
    if p.current == [] {
      assert Step(p, t, size, overlap) == Packing([], [t]);
    } else if Closes(p, t, size) {
      assert cs[|cs| - 1] == p.current;
      CloseLast(cs, t, size, overlap);
      assert Emitted(Step(p, t, size, overlap)) == cs + [Overlap(p.current, overlap) + [t]];
    } else {
      assert cs[|cs| - 1] == p.current && cs[..|cs| - 1] == p.closed;
      ExtendLast(cs, t, size, overlap);
    }
  }

  /** The chunk being filled carries the seed of the last closed chunk. */
  predicate LastFollows(p: Packing, size: int, overlap: int)
  {
    p.closed != [] ==> Follows(p.closed[|p.closed| - 1], p.current, size, overlap)
  }

  /** Closing chunk `c` on word `t` adds `t` to the reassembly. */
  lemma CloseReassembles(cs: seq<seq<string>>, c: seq<string>, t: string, overlap: int)
    ensures Reassemble(cs + [c] + [Overlap(c, overlap) + [t]], overlap) == Reassemble(cs + [c], overlap) + [t]
  {
    var seed := Overlap(c, overlap);
    var ds := cs + [c] + [seed + [t]];
    assert (seed + [t])[|seed|..] == [t];
    assert ds[..|ds| - 1] == cs + [c];
  }

  /** Appending word `t` to a chunk that follows `prev` adds `t` to the reassembly. */
  lemma ExtendReassembles(cs: seq<seq<string>>, c: seq<string>, t: string, size: int, overlap: int)
    requires cs != [] ==> Follows(cs[|cs| - 1], c, size, overlap)
    ensures Reassemble(cs + [c + [t]], overlap) == Reassemble(cs + [c], overlap) + [t]
  {
    if cs != [] {
      FollowsExtend(cs[|cs| - 1], c, t, size, overlap);
      assert (cs + [c + [t]])[..|cs|] == cs;
      assert (cs + [c])[..|cs|] == cs;
    }
  }

  /** One loop iteration appends its word to the reassembly. */
  lemma StepReassembles(p: Packing, t: string, size: int, overlap: int)
    requires p.current == [] ==> p.closed == []
    requires LastFollows(p, size, overlap)
    ensures Step(p, t, size, overlap).current != []
    ensures LastFollows(Step(p, t, size, overlap), size, overlap)
    ensures Reassemble(Emitted(Step(p, t, size, overlap)), overlap) == Reassemble(Emitted(p), overlap) + [t]
  {
    if p.current == [] {
      assert Step(p, t, size, overlap) == Packing([], [t]);
    } else if Closes(p, t, size) {
      var seed := Overlap(p.current, overlap);
      assert (seed + [t])[..|seed|] == seed && (seed + [t])[|seed|] == t;
      CloseReassembles(p.closed, p.current, t, overlap);
    } else {
      if p.closed != [] {
        FollowsExtend(p.closed[|p.closed| - 1], p.current, t, size, overlap);
      }
      ExtendReassembles(p.closed, p.current, t, size, overlap);
    }
  }

  /** The packing invariant holds after any number of iterations. */
  lemma {:induction false} PackWellPacked(ts: seq<string>, size: int, overlap: int)
    ensures ts != [] ==> Pack(ts, size, overlap).current != []
    ensures WellPacked(ChunkTokens(ts, size, overlap), size, overlap)
  {
    if ts != [] {
      var init := ts[..|ts| - 1];
      PackWellPacked(init, size, overlap);
      StepKeeps(Pack(init, size, overlap), ts[|ts| - 1], size, overlap);
    }
  }

  /** The chunk being filled always carries the seed of the last closed one. */
  lemma {:induction false} PackFollows(ts: seq<string>, size: int, overlap: int)
    ensures LastFollows(Pack(ts, size, overlap), size, overlap)
  {
    if ts != [] {
      var init := ts[..|ts| - 1];
      PackFollows(init, size, overlap);
      PackShape(init, size, overlap);
      StepReassembles(Pack(init, size, overlap), ts[|ts| - 1], size, overlap);
    }
  }

  /** Taking the seeds back out of the chunks gives the words consumed. */
  lemma {:induction false} PackReassembles(ts: seq<string>, size: int, overlap: int)
    ensures Reassemble(ChunkTokens(ts, size, overlap), overlap) == ts
  {
    if ts != [] {
      var init, t := ts[..|ts| - 1], ts[|ts| - 1];
      PackReassembles(init, size, overlap);
      PackFollows(init, size, overlap);
      PackShape(init, size, overlap);
      StepReassembles(Pack(init, size, overlap), t, size, overlap);
      DropLastAppend(ts);
    }
  }

  lemma DropLastAppend<T>(xs: seq<T>)
    requires xs != []
    ensures xs[..|xs| - 1] + [xs[|xs| - 1]] == xs
  {
  }

  /** The loop invariant holds after any number of iterations. */
  lemma PackInvariant(ts: seq<string>, size: int, overlap: int)
    ensures ts != [] ==> Pack(ts, size, overlap).current != []
    ensures WellPacked(ChunkTokens(ts, size, overlap), size, overlap)
    ensures Reassemble(ChunkTokens(ts, size, overlap), overlap) == ts
  {
    PackWellPacked(ts, size, overlap);
    PackReassembles(ts, size, overlap);
  }

  /** Every word of every chunk in `cs` is one of `ts`. */
  predicate WordsFrom(cs: seq<seq<string>>, ts: seq<string>)
  {
    forall i, j :: 0 <= i < |cs| && 0 <= j < |cs[i]| ==> cs[i][j] in ts
  }

  /** The chunk being filled is empty only before the first word. */
  lemma PackShape(ts: seq<string>, size: int, overlap: int)
    ensures ts != [] ==> Pack(ts, size, overlap).current != []
  {
  }

  /** One loop iteration takes its words from the ones consumed so far and the new word. */
  lemma StepWordsFrom(p: Packing, t: string, size: int, overlap: int, init: seq<string>)
    requires p.current == [] ==> p.closed == []
    requires WordsFrom(Emitted(p), init)
    ensures WordsFrom(Emitted(Step(p, t, size, overlap)), init + [t])
  {
    var cs := Emitted(p);
    var ds := Emitted(Step(p, t, size, overlap));
    var ts := init + [t];
    assert forall w :: w in init ==> w in ts;
    if p.current == [] {
      assert Step(p, t, size, overlap) == Packing([], [t]);
    } else {
      var n := |cs| - 1;
      assert cs[n] == p.current;
      var seed := Overlap(p.current, overlap);
      OverlapIsSuffix(p.current, overlap);
      var tail := if Closes(p, t, size) then seed + [t] else p.current + [t];
      assert ds == (if Closes(p, t, size) then cs else cs[..n]) + [tail];
      forall i, j | 0 <= i < |ds| && 0 <= j < |ds[i]| ensures ds[i][j] in ts {
        if i < |ds| - 1 {
          assert ds[i][j] == cs[i][j];
        } else if Closes(p, t, size) && j < |seed| {
          assert ds[i][j] == p.current[|p.current| - |seed| + j];
        } else if !Closes(p, t, size) && j < |p.current| {
          assert ds[i][j] == cs[n][j];
        } else {
          assert ds[i][j] == t;
        }
      }
    }
  }

  /** Every word of every chunk is a word of the input. */
  lemma {:induction false} ChunkWordsFromInput(ts: seq<string>, size: int, overlap: int)
    ensures WordsFrom(ChunkTokens(ts, size, overlap), ts)
  {
    if ts != [] {
      var init, t := ts[..|ts| - 1], ts[|ts| - 1];
      ChunkWordsFromInput(init, size, overlap);
      PackShape(init, size, overlap);
      StepWordsFrom(Pack(init, size, overlap), t, size, overlap, init);
      DropLastAppend(ts);
    }
  }

  // ---------------------------------------------------------------------------
  // What split_text guarantees

  /** No chunk is empty, and there are no chunks exactly when there are no words. */
  lemma ChunksNonEmpty(ts: seq<string>, size: int, overlap: int)
    ensures ChunkTokens(ts, size, overlap) == [] <==> ts == []
    ensures forall i :: 0 <= i < |ChunkTokens(ts, size, overlap)| ==> ChunkTokens(ts, size, overlap)[i] != []
  {
    PackInvariant(ts, size, overlap);
  }

  /** Completeness: the first chunk, followed by every later chunk without its
      seed, is exactly the input word sequence. */
  lemma ChunksComplete(ts: seq<string>, size: int, overlap: int)
    ensures Reassemble(ChunkTokens(ts, size, overlap), overlap) == ts
  {
    PackInvariant(ts, size, overlap);
  }

  /** The seed rule: chunk `i` (after a close) starts with the last `overlap` words
      of chunk `i - 1` when that chunk is longer than `overlap`; otherwise, and
      always when `overlap` is 0, it starts with the whole of chunk `i - 1`. In
      both cases more words follow the seed. */
  lemma ChunkSeed(ts: seq<string>, size: int, overlap: int, i: nat)
    requires 1 <= i < |ChunkTokens(ts, size, overlap)|
    ensures var prev, c := ChunkTokens(ts, size, overlap)[i - 1], ChunkTokens(ts, size, overlap)[i];
      (0 < overlap < |prev| ==> overlap < |c| && c[..overlap] == prev[|prev| - overlap..])
      && (overlap == 0 || |prev| <= overlap ==> |prev| < |c| && c[..|prev|] == prev)
  {
    PackInvariant(ts, size, overlap);
    var cs := ChunkTokens(ts, size, overlap);
    assert Follows(cs[i - 1], cs[i], size, overlap);
    OverlapRule(cs[i - 1], overlap);
  }

  /** The word that closed chunk `i - 1` opens chunk `i` right after the seed: it
      would have pushed chunk `i - 1` past `size`, and it is kept, not dropped. */
  lemma ChunkClosedOnOverflow(ts: seq<string>, size: int, overlap: int, i: nat)
    requires 1 <= i < |ChunkTokens(ts, size, overlap)|
    ensures var prev, c := ChunkTokens(ts, size, overlap)[i - 1], ChunkTokens(ts, size, overlap)[i];
      var n := |Overlap(prev, overlap)|;
      n < |c| && ApproxLength(prev) + |c[n]| + 1 > size
  {
    PackInvariant(ts, size, overlap);
    var cs := ChunkTokens(ts, size, overlap);
    assert Follows(cs[i - 1], cs[i], size, overlap);
  }

  /** The size bound: the first chunk fits in `size` unless it is a single word,
      and every later chunk fits unless it is its seed plus the single word that
      closed the chunk before it. */
  lemma ChunkSizeBound(ts: seq<string>, size: int, overlap: int, i: nat)
    requires i < |ChunkTokens(ts, size, overlap)|
    ensures var cs := ChunkTokens(ts, size, overlap);
      (i == 0 ==> ApproxLength(cs[0]) <= size || |cs[0]| == 1)
      && (i > 0 ==> ApproxLength(cs[i]) <= size || |cs[i]| == |Overlap(cs[i - 1], overlap)| + 1)
  {
    PackInvariant(ts, size, overlap);
  }

  /** On strings: `split_text` returns `[]` exactly for empty or whitespace-only
      text, and never returns an empty chunk. */
  lemma SplitTextEmpty(text: string, size: int, overlap: int)
    ensures SplitTextSpec(text, size, overlap) == [] <==> forall i :: 0 <= i < |text| ==> IsSpace(text[i])
    ensures forall i :: 0 <= i < |SplitTextSpec(text, size, overlap)| ==> SplitTextSpec(text, size, overlap)[i] != ""
  {
    var ts := Split(text);
    SplitEmptyIffBlank(text);
    ChunksNonEmpty(ts, size, overlap);
    ChunkWordsFromInput(ts, size, overlap);
    var cs := ChunkTokens(ts, size, overlap);
    forall i | 0 <= i < |cs| ensures Join(" ", cs[i]) != "" {
      assert forall j :: 0 <= j < |cs[i]| ==> IsToken(cs[i][j]) by {
        forall j | 0 <= j < |cs[i]| ensures IsToken(cs[i][j]) {
          var k :| 0 <= k < |ts| && ts[k] == cs[i][j];
        }
      }
      JoinEmptyIffNoParts(cs[i]);
    }
  }

  /** On strings: splitting each returned chunk gives back its word list, so the
      chunks, with their seeds removed, re-split into exactly `text.split()`. */
  lemma SplitTextComplete(text: string, size: int, overlap: int)
    ensures var chunks := SplitTextSpec(text, size, overlap);
      var words := seq(|chunks|, i requires 0 <= i < |chunks| => Split(chunks[i]));
      words == ChunkTokens(Split(text), size, overlap) && Reassemble(words, overlap) == Split(text)
  {
    var ts := Split(text);
    var cs := ChunkTokens(ts, size, overlap);
    ChunkWordsFromInput(ts, size, overlap);
    ChunksComplete(ts, size, overlap);
    var chunks := SplitTextSpec(text, size, overlap);
    var words := seq(|chunks|, i requires 0 <= i < |chunks| => Split(chunks[i]));
    forall i | 0 <= i < |cs| ensures words[i] == cs[i] {
      forall j | 0 <= j < |cs[i]| ensures IsToken(cs[i][j]) {
        var k :| 0 <= k < |ts| && ts[k] == cs[i][j];
      }
      SplitJoin(cs[i]);
    }
  }

  // ---------------------------------------------------------------------------
  // Two worked examples

  lemma FiveWordsSplit()
    ensures Split("a b c d e") == ["a", "b", "c", "d", "e"]
  {
    var ts: seq<string> := ["a", "b", "c", "d", "e"];
    assert ts[1..] == ["b", "c", "d", "e"];
    assert ts[1..][1..] == ["c", "d", "e"];
    assert ts[1..][1..][1..] == ["d", "e"];
    assert ts[1..][1..][1..][1..] == ["e"];
    assert Join(" ", ["d", "e"]) == "d e";
    assert Join(" ", ["c", "d", "e"]) == "c d e";
    assert Join(" ", ["b", "c", "d", "e"]) == "b c d e";
    assert Join(" ", ts) == "a b c d e";
    SplitJoin(ts);
  }

  lemma FiveWordsJoin()
    ensures JoinEach([["a", "b", "c", "d"], ["d", "e"]]) == ["a b c d", "d e"]
  {
    assert ["d", "e"][1..] == ["e"];
    assert Join(" ", ["d", "e"]) == "d e";
    assert ["a", "b", "c", "d"][1..] == ["b", "c", "d"];
    assert ["b", "c", "d"][1..] == ["c", "d"];
    assert ["c", "d"][1..] == ["d"];
    assert Join(" ", ["c", "d"]) == "c d";
    assert Join(" ", ["b", "c", "d"]) == "b c d";
    assert Join(" ", ["a", "b", "c", "d"]) == "a b c d";
  }

  /** Five two-character words, size 8, overlap 1: the fourth word still fits
      (the estimate reaches exactly 8), the fifth closes the chunk and is
      seeded with the last word. */
  lemma FiveWords()
    ensures SplitTextSpec("a b c d e", 8, 1) == ["a b c d", "d e"]
  {
    FiveWordsSplit();
    FiveWordsPack();
    FiveWordsJoin();
  }

  lemma FiveWordsPack()
    ensures ChunkTokens(["a", "b", "c", "d", "e"], 8, 1) == [["a", "b", "c", "d"], ["d", "e"]]
  {
    var ts: seq<string> := ["a", "b", "c", "d", "e"];
    assert ts[..4] == ["a", "b", "c", "d"];
    assert ["a", "b", "c", "d"][..3] == ["a", "b", "c"];
    assert ["a", "b", "c"][..2] == ["a", "b"];
    assert ["a", "b"][..1] == ["a"];
    assert Pack(["a"], 8, 1) == Packing([], ["a"]);
    assert ApproxLength(["a"]) == 2;
    assert Pack(["a", "b"], 8, 1) == Packing([], ["a", "b"]);
    assert ApproxLength(["a", "b"]) == 4;
    assert Pack(["a", "b", "c"], 8, 1) == Packing([], ["a", "b", "c"]);
    assert ApproxLength(["a", "b", "c"]) == 6;
    assert Pack(["a", "b", "c", "d"], 8, 1) == Packing([], ["a", "b", "c", "d"]);
    assert ApproxLength(["a", "b", "c", "d"]) == 8;
    assert Overlap(["a", "b", "c", "d"], 1) == ["d"];
    assert Pack(ts, 8, 1) == Packing([["a", "b", "c", "d"]], ["d", "e"]);
  }

  /** With overlap 0, `current[-0:]` is the whole list: the second chunk repeats
      all of the first. */
  lemma NoOverlapRepeatsChunk()
    ensures SplitTextSpec("a b c", 4, 0) == ["a b", "a b c"]
  {
    NoOverlapSplit();
    NoOverlapPack();
    NoOverlapJoin();
  }

  lemma NoOverlapSplit()
    ensures Split("a b c") == ["a", "b", "c"]
  {
    var ts: seq<string> := ["a", "b", "c"];
    assert ts[1..] == ["b", "c"];
    assert ts[1..][1..] == ["c"];
    assert Join(" ", ["b", "c"]) == "b c";
    assert Join(" ", ts) == "a b c";
    SplitJoin(ts);
  }

  lemma NoOverlapPack()
    ensures ChunkTokens(["a", "b", "c"], 4, 0) == [["a", "b"], ["a", "b", "c"]]
  {
    var ts: seq<string> := ["a", "b", "c"];
    assert ts[..2] == ["a", "b"];
    assert ["a", "b"][..1] == ["a"];
    assert ApproxLength(["a"]) == 2;
    assert ApproxLength(["a", "b"]) == 4;
    assert Pack(["a"], 4, 0) == Packing([], ["a"]);
    assert Pack(["a", "b"], 4, 0) == Packing([], ["a", "b"]);
    assert Overlap(["a", "b"], 0) == ["a", "b"];
    assert Pack(ts, 4, 0) == Packing([["a", "b"]], ["a", "b", "c"]);
  }

  lemma NoOverlapJoin()
    ensures JoinEach([["a", "b"], ["a", "b", "c"]]) == ["a b", "a b c"]
  {
    assert ["a", "b"][1..] == ["b"];
    assert ["a", "b", "c"][1..] == ["b", "c"];
    assert ["b", "c"][1..] == ["c"];
    assert Join(" ", ["b", "c"]) == "b c";
    assert Join(" ", ["a", "b"]) == "a b";
    assert Join(" ", ["a", "b", "c"]) == "a b c";
  }
}
