/**
 * Naming of the per-chunk audio artifacts: chunk `i` is written to
 * `audio_chunks/chunk_{i}.mp3`, with `i` rendered in decimal as Python's
 * f-string does for a non-negative int (no sign, no leading zeros).
 */
module ChunkNaming {

  const ChunkPrefix: string := "audio_chunks/chunk_"
  const ChunkSuffix: string := ".mp3"

  function DigitChar(d: nat): char
    requires d < 10
  {
    ('0' as int + d) as char
  }

  function DigitValue(c: char): nat
  {
    if '0' <= c <= '9' then c as int - '0' as int else 0
  }

  /** Decimal rendering of a non-negative integer. */
  function Decimal(n: nat): (s: string)
    ensures s != []
    ensures forall k :: 0 <= k < |s| ==> '0' <= s[k] <= '9'
  {
    if n < 10 then [DigitChar(n)] else Decimal(n / 10) + [DigitChar(n % 10)]
  }

  /** The rendering starts with `0` exactly for the index 0: there is no leading zero. */
  lemma {:induction false} DecimalLeadingDigit(n: nat)
    ensures Decimal(n)[0] == '0' <==> n == 0
  {
    if n >= 10 {
      assert Decimal(n)[0] == Decimal(n / 10)[0];
      DecimalLeadingDigit(n / 10);
    }
  }

  /** Value of a string of decimal digits, most significant first. */
  function ParseDecimal(s: string): nat
  {
    if s == [] then 0 else 10 * ParseDecimal(s[..|s| - 1]) + DigitValue(s[|s| - 1])
  }

  lemma {:induction false} DecimalRoundTrip(n: nat)
    ensures ParseDecimal(Decimal(n)) == n
  {
    var s := Decimal(n);
    if n < 10 {
      assert s[..|s| - 1] == [];
    } else {
      assert s[..|s| - 1] == Decimal(n / 10);
      DecimalRoundTrip(n / 10);
    }
  }

  /** The path of the audio artifact for chunk `i`. */
  function ChunkPath(i: nat): string
  {
    ChunkPrefix + Decimal(i) + ChunkSuffix
  }

  /** The chunk index a chunk path names: the digits between prefix and suffix. */
  function ChunkIndex(path: string): nat
  {
    if |path| < |ChunkPrefix| + |ChunkSuffix| then 0
    else ParseDecimal(path[|ChunkPrefix|..|path| - |ChunkSuffix|])
  }

  lemma ChunkPathRoundTrip(i: nat)
    ensures ChunkIndex(ChunkPath(i)) == i
  {
    var path := ChunkPath(i);
    assert path[|ChunkPrefix|..|path| - |ChunkSuffix|] == Decimal(i);
    DecimalRoundTrip(i);
  }

  /** Distinct indices give distinct paths: no artifact overwrites another within a run. */
  lemma ChunkPathInjective(i: nat, j: nat)
    ensures ChunkPath(i) == ChunkPath(j) ==> i == j
  {
    ChunkPathRoundTrip(i);
    ChunkPathRoundTrip(j);
  }

  /** The paths of chunks `0 .. n - 1`, in index order. */
  function ChunkPaths(n: nat): (paths: seq<string>)
    ensures |paths| == n
    ensures forall i :: 0 <= i < n ==> paths[i] == ChunkPath(i)
  {
    if n == 0 then [] else ChunkPaths(n - 1) + [ChunkPath(n - 1)]
  }

  /** Recording the path of chunk `n` after the paths of chunks `0 .. n - 1`. */
  lemma AppendChunkPath(recorded: seq<string>, n: nat)
    ensures recorded + ChunkPaths(n + 1) == (recorded + ChunkPaths(n)) + [ChunkPath(n)]
  {
    assert ChunkPaths(n + 1) == ChunkPaths(n) + [ChunkPath(n)];
  }

  predicate Distinct(paths: seq<string>)
  {
    forall i, j :: 0 <= i < j < |paths| ==> paths[i] != paths[j]
  }

  lemma ChunkPathsDistinct(n: nat)
    ensures Distinct(ChunkPaths(n))
  {
    forall i, j | 0 <= i < j < n
      ensures ChunkPaths(n)[i] != ChunkPaths(n)[j]
    {
      ChunkPathInjective(i, j);
    }
  }
}
