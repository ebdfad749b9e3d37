/**
 * Reading the input text `chunk_size` characters at a time, as
 * `TextToSpeechConverter.read_in_chunks` does in script.py: a text-mode
 * file is read with `read(chunk_size)` until a read comes back empty.
 */
module Chunking {

  /** Number of characters `read(n)` returns when `remaining` are left:
      a negative size reads to the end, otherwise at most `n` are returned. */
  function ReadCount(remaining: nat, n: int): (k: nat)
    ensures k <= remaining
  {
    if n < 0 || n > remaining then remaining else n
  }

  /** The result of `read(n)` on a text file whose cursor stands at `pos`. */
  function Read(text: string, pos: nat, n: int): (data: string)
    requires pos <= |text|
    ensures pos + |data| <= |text| && data == text[pos..pos + |data|]
    ensures n >= 0 ==> |data| <= n
    ensures n != 0 ==> (data == [] <==> pos == |text|)
  {
    text[pos..pos + ReadCount(|text| - pos, n)]
  }

  /** `read(n)` returns exactly `n` characters when that many remain, and the whole
      rest of the text when fewer remain or `n` is negative. */
  lemma ReadLength(text: string, pos: nat, n: int)
    requires pos <= |text|
    ensures |Read(text, pos, n)| == if n < 0 || n > |text| - pos then |text| - pos else n
  {
  }

  /** The chunks the generator yields, in order. */
  function Chunks(text: string, n: int): (chunks: seq<string>)
    ensures forall i :: 0 <= i < |chunks| ==> chunks[i] != []
    ensures |text| == 0 || n == 0 ==> chunks == []
    decreases |text|
  {
    var data := Read(text, 0, n);
    if data == [] then [] else [data] + Chunks(text[|data|..], n)
  }

  /** Reading on from a cursor: the chunks of the rest of the text are the next read
      followed by the chunks after it. */
  lemma ChunksFrom(text: string, pos: nat, n: int)
    requires pos <= |text|
    ensures var data := Read(text, pos, n);
      Chunks(text[pos..], n) == if data == [] then [] else [data] + Chunks(text[pos + |data|..], n)
  {
    var data := Read(text, pos, n);
    assert Read(text[pos..], 0, n) == data;
    assert text[pos..][|data|..] == text[pos + |data|..];
  }

  /** One step of a cursor loop that has read `done` so far: an empty read means `done`
      is all the chunks, and otherwise the read extends `done` by one chunk. */
  lemma ReadOn(text: string, pos: nat, n: int, done: seq<string>)
    requires pos <= |text|
    requires done + Chunks(text[pos..], n) == Chunks(text, n)
    ensures var data := Read(text, pos, n);
      && (data == [] ==> done == Chunks(text, n))
      && (data != [] ==> (done + [data]) + Chunks(text[pos + |data|..], n) == Chunks(text, n))
  {
    ChunksFrom(text, pos, n);
    var data := Read(text, pos, n);
    if data == [] {
      assert done + [] == done;
    } else {
      var after := Chunks(text[pos + |data|..], n);
      assert (done + [data]) + after == done + ([data] + after);
    }
  }

  /** The text obtained by putting the chunks back together, in order. */
  function Join(chunks: seq<string>): string
  {
    if chunks == [] then [] else chunks[0] + Join(chunks[1..])
  }

  lemma {:induction false} JoinAppend(a: seq<string>, b: seq<string>)
    ensures Join(a + b) == Join(a) + Join(b)
  {
    if a == [] {
      assert a + b == b;
    } else {
      assert (a + b)[1..] == a[1..] + b;
      JoinAppend(a[1..], b);
    }
  }

  /** Joining one more chunk of a prefix appends that chunk's text. */
  lemma JoinNext(chunks: seq<string>, i: nat)
    requires i < |chunks|
    ensures Join(chunks[..i + 1]) == Join(chunks[..i]) + chunks[i]
  {
    assert chunks[..i + 1] == chunks[..i] + [chunks[i]];
    JoinAppend(chunks[..i], [chunks[i]]);
    assert Join([chunks[i]]) == chunks[i] + [];
  }

  /** The chunks partition the text losslessly: nothing is dropped, repeated or reordered. */
  lemma {:induction false} ChunksAreLossless(text: string, n: int)
    requires n != 0
    ensures Join(Chunks(text, n)) == text
  {
    var data := Read(text, 0, n);
    if data != [] {
      ChunksAreLossless(text[|data|..], n);
      assert text == data + text[|data|..];
    }
  }

  /** Every chunk but the last is exactly `n` characters long; the last holds 1 to `n`. */
  lemma {:induction false} ChunkLengths(text: string, n: int)
    requires n >= 1
    ensures var chunks := Chunks(text, n);
      && (forall i :: 0 <= i < |chunks| - 1 ==> |chunks[i]| == n)
      && (chunks != [] ==> 1 <= |chunks[|chunks| - 1]| <= n)
  {
    var data := Read(text, 0, n);
    if data != [] {
      var rest := text[|data|..];
      ChunkLengths(rest, n);
      if |text| > n {
        assert |data| == n;
        assert Chunks(rest, n) != [];
      } else {
        assert |rest| == 0;
      }
    }
  }

  /** For a positive size the number of chunks is the ceiling of `|text| / n`. */
  lemma {:induction false} ChunkCount(text: string, n: int)
    requires n >= 1
    ensures |Chunks(text, n)| == (|text| + n - 1) / n
  {
    if |text| == 0 {
      DivisionIsUnique(n - 1, n, 0);
    } else if |text| <= n {
      assert Read(text, 0, n) == text;
      assert Chunks(text, n) == [text] + Chunks(text[|text|..], n);
      DivisionIsUnique(|text| + n - 1, n, 1);
    } else {
      var rest := text[n..];
      assert Read(text, 0, n) == text[..n];
      assert Chunks(text, n) == [text[..n]] + Chunks(rest, n);
      ChunkCount(rest, n);
      DivisionStep(|rest| + n - 1, n);
    }
  }

  lemma DivisionStep(x: int, n: int)
    requires x >= 0 && n >= 1
    ensures (x + n) / n == x / n + 1
  {
    var q := x / n;
    assert q * n <= x < q * n + n;
    assert (q + 1) * n == q * n + n;
    DivisionIsUnique(x + n, n, q + 1);
  }

  lemma MulGrows(k: int, n: int)
    requires k >= 1 && n >= 1
    ensures k * n >= n
  {
  }

  lemma DivisionIsUnique(x: int, n: int, q: int)
    requires n >= 1
    requires q * n <= x < q * n + n
    ensures x / n == q
  {
    var d, r := x / n, x % n;
    assert x == d * n + r && 0 <= r < n;
    assert (d - q) * n == d * n - q * n;
    if d > q {
      MulGrows(d - q, n);
    } else if d < q {
      MulGrows(q - d, n);
    }
  }
}
