/** The stream and string helpers of mongo_odm/utils/utils.py: `chunks`,
    `iter_counter`, the digit grouping of `__formatted` and
    `__clean_directory_name`. Generators are modelled on finite sequences:
    a generator's output is the sequence of everything it yields. */
module Utils {
  import opened Values

  /** The concatenation of a sequence of chunks. */
  function Concat<T>(css: seq<seq<T>>): seq<T>
  {
    if css == [] then [] else css[0] + Concat(css[1..])
  }

  lemma {:induction false} ConcatSnoc<T>(css: seq<seq<T>>, c: seq<T>)
    ensures Concat(css + [c]) == Concat(css) + c
  {
    if css == [] {
      assert css + [c] == [c];
    } else {
      assert (css + [c])[1..] == css[1..] + [c];
      ConcatSnoc(css[1..], c);
    }
  }

  lemma ConcatPrefix<T>(css: seq<seq<T>>, i: nat)
    requires i < |css|
    ensures Concat(css[..i + 1]) == Concat(css[..i]) + css[i]
  {
    assert css[..i + 1] == css[..i] + [css[i]];
    ConcatSnoc(css[..i], css[i]);
  }

  lemma {:induction false} ConcatAppend<T>(a: seq<seq<T>>, b: seq<seq<T>>)
    ensures Concat(a + b) == Concat(a) + Concat(b)
  {
    if a == [] {
      assert a + b == b;
    } else {
      assert (a + b)[1..] == a[1..] + b;
      ConcatAppend(a[1..], b);
    }
  }

  /** `chunks(s, n)` for n >= 2: the `islice` path, which takes one element
      and then up to n - 1 more from the shared iterator. */
  function ChunksOf<T>(s: seq<T>, n: nat): (r: seq<seq<T>>)
    requires n >= 2
    decreases |s|
  {
    if s == [] then []
    else if |s| <= n then [s]
    else [s[..n]] + ChunksOf(s[n..], n)
  }

  /** The chunks concatenate back to the input; each holds between 1 and n
      elements, all but the last exactly n; empty input gives no chunk. */
  lemma {:induction false} ChunksOfShape<T>(s: seq<T>, n: nat)
    requires n >= 2
    ensures Concat(ChunksOf(s, n)) == s
    ensures forall k :: 0 <= k < |ChunksOf(s, n)| ==> 1 <= |ChunksOf(s, n)[k]| <= n
    ensures forall k :: 0 <= k < |ChunksOf(s, n)| - 1 ==> |ChunksOf(s, n)[k]| == n
    ensures ChunksOf(s, n) == [] <==> s == []
    decreases |s|
  {
    if |s| <= n {
      if s != [] {
        assert Concat([s]) == s + Concat([s][1..]);
      }
    } else {
      var rest := ChunksOf(s[n..], n);
      ChunksOfShape(s[n..], n);
      var r := [s[..n]] + rest;
      assert ChunksOf(s, n) == r;
      assert r[1..] == rest;
      assert s[..n] + s[n..] == s;
      forall k | 0 <= k < |r|
        ensures 1 <= |r[k]| <= n
        ensures k < |r| - 1 ==> |r[k]| == n
      {
        if k > 0 {
          assert r[k] == rest[k - 1];
        }
      }
    }
  }

  /** What `chunks(s, n)` yields: with n == 1 the whole input as one chunk
      (even when it is empty); otherwise nothing for empty input; and for
      n < 1 the `islice` call raises ValueError on the first chunk. */
  function ChunkSeq<T>(s: seq<T>, n: int): Result<seq<seq<T>>>
  {
    if n == 1 then Ok([s])
    else if s == [] then Ok([])
    else if n < 1 then Err(ValueError)
    else Ok(ChunksOf(s, n))
  }

  /** Whatever `chunks` yields concatenates back to its input. */
  lemma ChunkSeqConcat<T>(s: seq<T>, n: int)
    requires ChunkSeq(s, n).Ok?
    ensures Concat(ChunkSeq(s, n).value) == s
  {
    if n == 1 {
      assert Concat([s]) == s + Concat([s][1..]);
    } else if n >= 2 {
      ChunksOfShape(s, n);
    }
  }

  /** `chunks` as the generator loop it is. */
  method Chunks<T>(s: seq<T>, n: int) returns (r: Result<seq<seq<T>>>)
    ensures r == ChunkSeq(s, n)
  {
    if n == 1 {
      return Ok([s]);
    }
    var cs: seq<seq<T>> := [];
    var i := 0;
    while i < |s|
      invariant 0 <= i <= |s|
      invariant n < 2 ==> i == 0 && cs == []
      invariant n >= 2 ==> ChunksOf(s, n) == cs + ChunksOf(s[i..], n)
    {
      if n < 1 {
        return Err(ValueError);
      }
      var j := if i + n <= |s| then i + n else |s|;
      ghost var tail := s[i..];
      if |tail| <= n {
        assert tail == s[i..j];
        assert s[j..] == [];
      } else {
        assert tail[..n] == s[i..j];
        assert tail[n..] == s[j..];
      }
      assert ChunksOf(tail, n) == [s[i..j]] + ChunksOf(s[j..], n);
      cs := cs + [s[i..j]];
      i := j;
    }
    assert s[i..] == [];
    assert n >= 2 ==> ChunksOf(s[i..], n) == [] && cs + [] == cs;
    return Ok(cs);
  }

  predicate TotalTruthy(total: Option<int>)
  {
    total.Some? && total.value != 0
  }

  /** The print step `iter_counter` works with: when `total` is truthy the
      requested step is clamped to it. */
  function EffectiveStep(total: Option<int>, printStep: int): (step: int)
    ensures step <= printStep
    ensures TotalTruthy(total) ==> step <= total.value
    ensures step == printStep || (TotalTruthy(total) && step == total.value)
  {
    if TotalTruthy(total) && printStep > total.value then total.value else printStep
  }

  /** The `/total` suffix of every progress line, empty when `total` is falsy. */
  function TotalMessage(total: Option<int>): string
  {
    if TotalTruthy(total) then "/" + Formatted(total.value) else ""
  }

  /** The progress line after `count` values. */
  function ProgressLine(message: string, count: int, total: Option<int>): string
  {
    message + ": " + Formatted(count) + TotalMessage(total)
  }

  /** The lines printed after the first `n` chunks of `step` values, each made
      by `line` from the count processed so far. */
  function Reports(line: int -> string, step: int, n: nat): (lines: seq<string>)
    ensures |lines| == n
  {
    if n == 0 then [] else Reports(line, step, n - 1) + [line(n * step)]
  }

  lemma ReportsSnoc(line: int -> string, step: int, n: nat)
    ensures Reports(line, step, n + 1) == Reports(line, step, n) + [line((n + 1) * step)]
  {
  }

  /** Line i (from 0) reports `(i + 1) * step` values processed. */
  lemma {:induction false} ReportsAt(line: int -> string, step: int, n: nat, i: nat)
    requires i < n
    ensures Reports(line, step, n)[i] == line((i + 1) * step)
    decreases n
  {
    var prefix := Reports(line, step, n - 1);
    assert Reports(line, step, n) == prefix + [line(n * step)];
    if i < n - 1 {
      ReportsAt(line, step, n - 1, i);
    } else {
      assert i + 1 == n;
    }
  }

  /** What `iter_counter` yields and the progress lines it prints. */
  datatype Progress<T> = Progress(values: seq<T>, lines: seq<string>)

  /** `iter_counter`: yields the input unchanged, one chunk of `step` values at
      a time, and after chunk i (from 1) reports `i * step` processed. */
  method IterCounter<T>(s: seq<T>, total: Option<int>, printStep: int, message: string)
    returns (r: Result<Progress<T>>)
    ensures r.Err? <==> ChunkSeq(s, EffectiveStep(total, printStep)).Err?
    ensures r.Ok? ==> r.value.values == s
    ensures r.Ok? ==>
      var step := EffectiveStep(total, printStep);
      && |r.value.lines| == |ChunkSeq(s, step).value|
      && forall i :: 0 <= i < |r.value.lines| ==>
           r.value.lines[i] == ProgressLine(message, (i + 1) * step, total)
  {
    var step := EffectiveStep(total, printStep);
    var chunked := Chunks(s, step);
    if chunked.Err? {
      return Err(chunked.error);
    }
    var cs := chunked.value;
    var values: seq<T> := [];
    var lines: seq<string> := [];
    ghost var report := (count: int) => ProgressLine(message, count, total);
    for i := 0 to |cs|
      invariant values == Concat(cs[..i])
      invariant lines == Reports(report, step, i)
    {
      ConcatPrefix(cs, i);
      values := values + cs[i];
      var line := ProgressLine(message, (i + 1) * step, total);
      ReportsSnoc(report, step, i);
      lines := lines + [line];
    }
    assert cs[..|cs|] == cs;
    ChunkSeqConcat(s, step);
    forall i | 0 <= i < |cs|
      ensures lines[i] == ProgressLine(message, (i + 1) * step, total)
    {
      ReportsAt(report, step, |cs|, i);
    }
    return Ok(Progress(values, lines));
  }

  /** Thousands grouping of a digit string: groups of three from the right,
      joined by single spaces (the leftmost group may be shorter). */
  function Group(ds: string): string
  {
    if |ds| <= 3 then ds else Group(ds[..|ds| - 3]) + " " + ds[|ds| - 3..]
  }

  /** `__formatted`: `format(number, ",")` with the commas turned into spaces. */
  function Formatted(number: int): string
  {
    if number < 0 then "-" + Group(DecimalDigits(-number)) else Group(DecimalDigits(number))
  }

  function RemoveSpaces(s: string): string
  {
    if s == [] then []
    else RemoveSpaces(s[..|s| - 1]) + (if s[|s| - 1] == ' ' then [] else [s[|s| - 1]])
  }

  lemma {:induction false} RemoveSpacesAppend(a: string, b: string)
    ensures RemoveSpaces(a + b) == RemoveSpaces(a) + RemoveSpaces(b)
  {
    if b == [] {
      assert a + b == a;
    } else {
      assert (a + b)[..|a + b| - 1] == a + b[..|b| - 1];
      RemoveSpacesAppend(a, b[..|b| - 1]);
    }
  }

  lemma {:induction false} RemoveSpacesOfDigits(s: string)
    requires forall i :: 0 <= i < |s| ==> IsDigit(s[i])
    ensures RemoveSpaces(s) == s
  {
    if s != [] {
      RemoveSpacesOfDigits(s[..|s| - 1]);
    }
  }

  /** Removing the spaces of two parts joined by a space, the second of
      them digits only. */
  lemma RemoveSpacesJoin(g: string, post: string)
    requires forall i :: 0 <= i < |post| ==> IsDigit(post[i])
    ensures RemoveSpaces(g + " " + post) == RemoveSpaces(g) + post
  {
    RemoveSpacesAppend(g + " ", post);
    RemoveSpacesOfDigits(post);
    RemoveSpacesSpace(g);
  }

  lemma RemoveSpacesSpace(g: string)
    ensures RemoveSpaces(g + " ") == RemoveSpaces(g)
  {
    assert (g + " ")[..|g|] == g;
  }

  lemma {:induction false} GroupDigits(ds: string)
    requires forall i :: 0 <= i < |ds| ==> IsDigit(ds[i])
    ensures RemoveSpaces(Group(ds)) == ds
  {
    if |ds| <= 3 {
      RemoveSpacesOfDigits(ds);
    } else {
      var pre, post := ds[..|ds| - 3], ds[|ds| - 3..];
      GroupDigits(pre);
      RemoveSpacesJoin(Group(pre), post);
      assert pre + post == ds;
    }
  }

  /** A space exactly at every fourth position counted from the right end. */
  predicate SpacedByFours(r: string)
  {
    forall i :: 0 <= i < |r| ==> (r[i] == ' ' <==> (|r| - i) % 4 == 0)
  }

  /** Joining three digits to a string spaced by fours, with a space between,
      keeps it spaced by fours. */
  lemma JoinSpacedByFours(g: string, post: string)
    requires SpacedByFours(g)
    requires |post| == 3 && forall i :: 0 <= i < |post| ==> IsDigit(post[i])
    ensures SpacedByFours(g + " " + post)
  {
    var r := g + " " + post;
    forall i | 0 <= i < |r|
      ensures r[i] == ' ' <==> (|r| - i) % 4 == 0
    {
      if i < |g| {
        assert r[i] == g[i];
        var m := |g| - i;
        assert |r| - i == m + 4;
        assert (m + 4) % 4 == m % 4;
      } else if i > |g| {
        assert r[i] == post[i - |g| - 1];
        assert IsDigit(post[i - |g| - 1]);
        assert 1 <= |r| - i <= 3;
      }
    }
  }

  lemma {:induction false} GroupSpaces(ds: string)
    requires forall i :: 0 <= i < |ds| ==> IsDigit(ds[i])
    ensures SpacedByFours(Group(ds))
  {
    if |ds| > 3 {
      var pre, post := ds[..|ds| - 3], ds[|ds| - 3..];
      GroupSpaces(pre);
      JoinSpacedByFours(Group(pre), post);
    }
  }

  /** `__formatted` on a non-negative number gives its decimal digits, with a
      space exactly at every fourth position counted from the right end, that
      is, digit groups of three from the right separated by single spaces. */
  lemma FormattedGroupsDigits(n: nat)
    ensures RemoveSpaces(Formatted(n)) == DecimalDigits(n)
    ensures SpacedByFours(Formatted(n))
    ensures Formatted(n) != [] && IsDigit(Formatted(n)[0])
  {
    GroupDigits(DecimalDigits(n));
    GroupSpaces(DecimalDigits(n));
    GroupFirst(DecimalDigits(n));
  }

  /** Grouping starts with the first digit: the leftmost group is never
      empty, so no space leads. */
  lemma {:induction false} GroupFirst(ds: string)
    requires ds != []
    ensures Group(ds) != [] && Group(ds)[0] == ds[0]
  {
    if |ds| > 3 {
      var pre := ds[..|ds| - 3];
      GroupFirst(pre);
      assert Group(ds) == Group(pre) + " " + ds[|ds| - 3..];
    }
  }

  predicate EndsWithSlash(s: string)
  {
    |s| > 0 && s[|s| - 1] == '/'
  }

  /** `__clean_directory_name`: drops one trailing slash, if there is one. */
  function CleanDirectoryName(directory: string): (r: string)
    ensures r == directory || r + "/" == directory
    ensures |r| < |directory| <==> EndsWithSlash(directory)
  {
    if EndsWithSlash(directory) then directory[..|directory| - 1] else directory
  }

  /** Only one slash goes: a path with two trailing slashes keeps one. */
  lemma CleanDirectoryNameOnce(directory: string)
    ensures CleanDirectoryName(directory + "/") == directory
    ensures CleanDirectoryName(directory + "//") == directory + "/"
  {
    assert (directory + "/")[..|directory|] == directory;
    assert (directory + "//")[..|directory| + 1] == directory + "/";
  }
}
