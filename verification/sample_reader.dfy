/** PyNvSampleReader: request matching for buffered asynchronous results,
    the textual request key used in mismatch messages, and the argument and
    reader-admission checks that open run and run_rgb_out. */
module SampleReader {
  import opened Common

  /** The parameters of one decode request, as a DecodeResult records them. */
  datatype Request = Request(paths: seq<string>, ids: seq<int>, asBgr: bool)

  /* ---------- validate_request ---------- */

  /** What validate_request compares: both list lengths, the colour flag,
      and the paths and ids position by position up to the number of paths.
      Ids past the number of paths are not compared. */
  predicate MatchesRequest(result: Request, paths: seq<string>, ids: seq<int>, asBgr: bool) {
    |result.paths| == |paths| && |result.ids| == |ids| && result.asBgr == asBgr &&
    forall i :: 0 <= i < |paths| ==> result.paths[i] == paths[i] && i < |ids| && result.ids[i] == ids[i]
  }

  /** The source reads frame_ids[i] for every path index once the lengths
      agree, so it needs at least as many ids as paths there. */
  predicate ValidateReadable(result: Request, paths: seq<string>, ids: seq<int>) {
    |result.paths| == |paths| && |result.ids| == |ids| ==> |paths| <= |ids|
  }

  /** validate_request: the buffered result answers the request. */
  method ValidateRequest(result: Request, paths: seq<string>, ids: seq<int>, asBgr: bool) returns (ok: bool)
    requires ValidateReadable(result, paths, ids)
    ensures ok <==> MatchesRequest(result, paths, ids, asBgr)
  {
    if |result.paths| != |paths| || |result.ids| != |ids| {
      return false;
    }
    if result.asBgr != asBgr {
      return false;
    }
    var i := 0;
    while i < |paths|
      invariant 0 <= i <= |paths|
      invariant forall j :: 0 <= j < i ==> result.paths[j] == paths[j] && result.ids[j] == ids[j]
    {
      if result.paths[i] != paths[i] || result.ids[i] != ids[i] {
        return false;
      }
      i := i + 1;
    }
    return true;
  }

  /** With one id per path, as every successfully decoded result has,
      matching is equality of the requests. */
  lemma MatchesIsEquality(result: Request, paths: seq<string>, ids: seq<int>, asBgr: bool)
    requires |paths| == |ids|
    ensures MatchesRequest(result, paths, ids, asBgr) <==> result == Request(paths, ids, asBgr)
  {
    if MatchesRequest(result, paths, ids, asBgr) {
      assert result.paths == paths;
      assert result.ids == ids;
    }
  }

  /** With more ids than paths, ids past the number of paths are ignored. */
  lemma TrailingIdsNotCompared()
    ensures MatchesRequest(Request(["a"], [1, 3], false), ["a"], [1, 2], false)
  {
  }

  /* ---------- generate_request_key ---------- */

  /** The decimal digits of a natural number, as `std::ostream <<` prints it. */
  function NatDigits(n: nat): (r: string)
    ensures |r| > 0 && forall i :: 0 <= i < |r| ==> '0' <= r[i] <= '9'
    ensures n > 0 ==> r[0] != '0'
    decreases n
  {
    var d := [('0' as int + n % 10) as char];
    if n < 10 then d else NatDigits(n / 10) + d
  }

  /** The decimal text of an int: a minus sign for negative values. */
  function Decimal(n: int): (r: string)
    ensures |r| > 0 && (r[0] == '-' <==> n < 0)
    ensures Lacks(r, ':') && Lacks(r, ',')
  {
    if n < 0 then "-" + NatDigits(-n) else NatDigits(n)
  }

  /** The value of a string of decimal digits. */
  function DigitsValue(s: string): (n: nat)
    decreases |s|
  {
    if |s| == 0 then 0
    else DigitsValue(s[..|s| - 1]) * 10 + if '0' <= s[|s| - 1] <= '9' then s[|s| - 1] as int - '0' as int else 0
  }

  /** Reading back an integer printed by Decimal. */
  function ParseDecimal(s: string): (n: int) {
    if |s| > 0 && s[0] == '-' then -(DigitsValue(s[1..]) as int) else DigitsValue(s)
  }

  lemma {:induction false} NatDigitsRoundTrip(n: nat)
    ensures DigitsValue(NatDigits(n)) == n
    decreases n
  {
    var s := NatDigits(n);
    if n >= 10 {
      NatDigitsRoundTrip(n / 10);
      assert s[..|s| - 1] == NatDigits(n / 10);
    }
  }

  /** Printing an id and reading it back gives the id. */
  lemma DecimalRoundTrip(n: int)
    ensures ParseDecimal(Decimal(n)) == n
  {
    if n < 0 {
      NatDigitsRoundTrip(-n);
      assert Decimal(n)[1..] == NatDigits(-n);
    } else {
      NatDigitsRoundTrip(n);
    }
  }

  /** The strings joined with a separator between neighbours. */
  function Join(xs: seq<string>, sep: char): (r: string)
    ensures |xs| == 1 ==> r == xs[0]
  {
    if |xs| == 0 then ""
    else if |xs| == 1 then xs[0]
    else xs[0] + [sep] + Join(xs[1..], sep)
  }

  /** One `path:id` entry of a request key. */
  function KeyEntry(path: string, id: int): (r: string)
    ensures |r| > |path| + 1 && r[..|path|] == path && r[|path|] == ':'
  {
    path + ":" + Decimal(id)
  }

  /** The entries of a request key, one per path. */
  function KeyEntries(paths: seq<string>, ids: seq<int>): (r: seq<string>)
    requires |paths| <= |ids|
    ensures |r| == |paths|
    ensures forall i :: 0 <= i < |paths| ==> r[i] == KeyEntry(paths[i], ids[i])
  {
    if |paths| == 0 then [] else [KeyEntry(paths[0], ids[0])] + KeyEntries(paths[1..], ids[1..])
  }

  /** generate_request_key: the flag as `1` or `0` (the stream is not in
      boolalpha mode), a colon, then `path:id` per file joined by commas.
      The source reads one id per path, so it needs at least that many. */
  function GenerateRequestKey(paths: seq<string>, ids: seq<int>, asBgr: bool): (r: string)
    requires |paths| <= |ids|
    ensures |r| >= 2 && r[..2] == (if asBgr then "1:" else "0:")
    ensures r[2..] == Join(KeyEntries(paths, ids), ',')
  {
    (if asBgr then "1:" else "0:") + Join(KeyEntries(paths, ids), ',')
  }

  /** The position of the first sep in s, or |s|. */
  function IndexOf(s: string, sep: char): (i: nat)
    ensures i <= |s| && sep !in s[..i]
    ensures i < |s| ==> s[i] == sep
  {
    if |s| == 0 || s[0] == sep then 0 else 1 + IndexOf(s[1..], sep)
  }

  /** The pieces of s between occurrences of sep. */
  function Split(s: string, sep: char): (r: seq<string>)
    ensures |r| > 0
    decreases |s|
  {
    var i := IndexOf(s, sep);
    if i == |s| then [s] else [s[..i]] + Split(s[i + 1..], sep)
  }

  /** s holds no c. */
  predicate Lacks(s: string, c: char) {
    forall i :: 0 <= i < |s| ==> s[i] != c
  }

  lemma {:induction false} IndexOfAbsent(s: string, sep: char)
    requires Lacks(s, sep)
    ensures IndexOf(s, sep) == |s|
    decreases |s|
  {
    if |s| > 0 {
      assert Lacks(s[1..], sep);
      IndexOfAbsent(s[1..], sep);
    }
  }

  lemma {:induction false} IndexOfAfter(x: string, sep: char, t: string)
    requires Lacks(x, sep)
    ensures IndexOf(x + [sep] + t, sep) == |x|
    decreases |x|
  {
    if |x| > 0 {
      assert Lacks(x[1..], sep);
      assert (x + [sep] + t)[1..] == x[1..] + [sep] + t;
      IndexOfAfter(x[1..], sep, t);
    }
  }

  /** Splitting a joined list on a separator none of its strings holds gives
      the list back. */
  lemma {:induction false} SplitJoin(xs: seq<string>, sep: char)
    requires |xs| > 0
    requires forall i :: 0 <= i < |xs| ==> Lacks(xs[i], sep)
    ensures Split(Join(xs, sep), sep) == xs
    decreases |xs|
  {
    var x := xs[0];
    if |xs| == 1 {
      IndexOfAbsent(x, sep);
    } else {
      var tail := xs[1..];
      var rest := Join(tail, sep);
      var s := x + [sep] + rest;
      assert Join(xs, sep) == s;
      IndexOfAfter(x, sep, rest);
      SplitAt(x, sep, rest);
      assert forall i :: 0 <= i < |tail| ==> Lacks(tail[i], sep) by {
        forall i | 0 <= i < |tail| ensures Lacks(tail[i], sep) {
          assert tail[i] == xs[i + 1];
        }
      }
      SplitJoin(tail, sep);
      assert [x] + tail == xs;
    }
  }

  lemma SplitAt(x: string, sep: char, t: string)
    requires IndexOf(x + [sep] + t, sep) == |x|
    ensures Split(x + [sep] + t, sep) == [x] + Split(t, sep)
  {
    var s := x + [sep] + t;
    assert s[..|x|] == x;
    assert s[|x| + 1..] == t;
  }

  /** One `path:id` entry read back. */
  function ParseEntry(e: string): (r: Option<(string, int)>) {
    var parts := Split(e, ':');
    if |parts| == 2 then Some((parts[0], ParseDecimal(parts[1]))) else None
  }

  /** A list of entries read back, all or nothing. */
  function ParseEntries(es: seq<string>): (r: Option<(seq<string>, seq<int>)>)
    ensures r.Some? ==> |r.value.0| == |r.value.1| == |es|
  {
    if |es| == 0 then Some(([], []))
    else
      match (ParseEntry(es[0]), ParseEntries(es[1..]))
      case (Some(e), Some(rest)) => Some(([e.0] + rest.0, [e.1] + rest.1))
      case _ => None
  }

  /** Reading a request key back, for keys whose paths hold neither `:`
      nor `,`. */
  function ParseRequestKey(key: string): (r: Option<Request>) {
    if |key| < 2 || key[1] != ':' || (key[0] != '0' && key[0] != '1') then None
    else
      var body := key[2..];
      var entries := if body == "" then [] else Split(body, ',');
      match ParseEntries(entries)
      case None => None
      case Some(lists) => Some(Request(lists.0, lists.1, key[0] == '1'))
  }

  /** A path that cannot be confused with the key's separators. */
  predicate PlainPath(p: string) {
    Lacks(p, ':') && Lacks(p, ',')
  }

  lemma LacksConcat(a: string, b: string, c: char)
    requires Lacks(a, c) && Lacks(b, c)
    ensures Lacks(a + b, c)
  {
    forall k | 0 <= k < |a + b| ensures (a + b)[k] != c {
      if k >= |a| {
        assert (a + b)[k] == b[k - |a|];
      }
    }
  }

  lemma EntryRoundTrip(path: string, id: int)
    requires PlainPath(path)
    ensures ParseEntry(KeyEntry(path, id)) == Some((path, id))
    ensures Lacks(KeyEntry(path, id), ',')
    ensures |KeyEntry(path, id)| > 0
  {
    var d := Decimal(id);
    var e := KeyEntry(path, id);
    assert Join([path, d], ':') == e;
    assert forall i :: 0 <= i < |[path, d]| ==> Lacks([path, d][i], ':');
    SplitJoin([path, d], ':');
    assert Split(e, ':') == [path, d];
    DecimalRoundTrip(id);
    LacksConcat(path, ":", ',');
    LacksConcat(path + ":", d, ',');
  }

  /** Reading a list whose head and tail both read back. */
  lemma ParseEntriesCons(e: string, es: seq<string>, x: (string, int), xs: (seq<string>, seq<int>))
    requires ParseEntry(e) == Some(x) && ParseEntries(es) == Some(xs)
    ensures ParseEntries([e] + es) == Some(([x.0] + xs.0, [x.1] + xs.1))
  {
    assert ([e] + es)[0] == e;
    assert ([e] + es)[1..] == es;
  }

  lemma {:induction false} EntriesRoundTrip(paths: seq<string>, ids: seq<int>)
    requires |paths| == |ids|
    requires forall i :: 0 <= i < |paths| ==> PlainPath(paths[i])
    ensures ParseEntries(KeyEntries(paths, ids)) == Some((paths, ids))
    decreases |paths|
  {
    if |paths| > 0 {
      var tail := paths[1..];
      assert forall i :: 0 <= i < |tail| ==> PlainPath(tail[i]) by {
        forall i | 0 <= i < |tail| ensures PlainPath(tail[i]) {
          assert tail[i] == paths[i + 1];
        }
      }
      EntriesRoundTrip(tail, ids[1..]);
      EntryRoundTrip(paths[0], ids[0]);
      assert KeyEntries(paths, ids) == [KeyEntry(paths[0], ids[0])] + KeyEntries(tail, ids[1..]);
      ParseEntriesCons(KeyEntry(paths[0], ids[0]), KeyEntries(tail, ids[1..]), (paths[0], ids[0]), (tail, ids[1..]));
      assert [paths[0]] + tail == paths;
      assert [ids[0]] + ids[1..] == ids;
    }
  }

  /** The entries of a key are split back out of its body. */
  lemma BodySplits(paths: seq<string>, ids: seq<int>)
    requires |paths| == |ids|
    requires forall i :: 0 <= i < |paths| ==> PlainPath(paths[i])
    ensures var es := KeyEntries(paths, ids);
            var body := Join(es, ',');
            (if body == "" then [] else Split(body, ',')) == es
  {
    var es := KeyEntries(paths, ids);
    if |es| > 0 {
      forall i | 0 <= i < |es| ensures Lacks(es[i], ',') {
        EntryRoundTrip(paths[i], ids[i]);
      }
      SplitJoin(es, ',');
      EntryRoundTrip(paths[0], ids[0]);
      if |es| > 1 {
        assert Join(es, ',') == es[0] + [','] + Join(es[1..], ',');
      }
    }
  }

  /** For plain paths the request key is lossless: parsing it gives back the
      request. */
  lemma RequestKeyRoundTrip(req: Request)
    requires |req.paths| == |req.ids|
    requires forall i :: 0 <= i < |req.paths| ==> PlainPath(req.paths[i])
    ensures ParseRequestKey(GenerateRequestKey(req.paths, req.ids, req.asBgr)) == Some(req)
  {
    var key := GenerateRequestKey(req.paths, req.ids, req.asBgr);
    var body := Join(KeyEntries(req.paths, req.ids), ',');
    assert key[0] == (if req.asBgr then '1' else '0') && key[1] == ':' && key[2..] == body by {
      assert key == (if req.asBgr then "1:" else "0:") + body;
    }
    BodySplits(req.paths, req.ids);
    EntriesRoundTrip(req.paths, req.ids);
    ParseKeyOfBody(key, req.asBgr, KeyEntries(req.paths, req.ids));
  }

  /** The request read from a key whose body splits into the given entries. */
  lemma ParseKeyOfBody(key: string, asBgr: bool, es: seq<string>)
    requires |key| >= 2 && key[0] == (if asBgr then '1' else '0') && key[1] == ':'
    requires (if key[2..] == "" then [] else Split(key[2..], ',')) == es
    requires ParseEntries(es).Some?
    ensures ParseRequestKey(key) == Some(Request(ParseEntries(es).value.0, ParseEntries(es).value.1, asBgr))
  {
  }

  /** Paths holding the separators make the key ambiguous: two different
      requests print the same key, which is why results are matched on the
      lists themselves. */
  lemma RequestKeyAmbiguousWithSeparators()
    ensures GenerateRequestKey(["a:1,b"], [2], false) == GenerateRequestKey(["a", "b"], [1, 2], false)
  {
    assert Decimal(1) == "1" && Decimal(2) == "2";
    assert KeyEntry("a", 1) == "a:1" && KeyEntry("b", 2) == "b:2" && KeyEntry("a:1,b", 2) == "a:1,b:2";
    assert KeyEntries(["a", "b"], [1, 2]) == ["a:1", "b:2"];
    assert KeyEntries(["a:1,b"], [2]) == ["a:1,b:2"];
  }

  /* ---------- run / run_rgb_out admission ---------- */

  /** The part of a FixedSizeVideoReaderMap the admission test reads: the
      paths it caches and its capacity (num_of_set). */
  datatype ReaderMap = ReaderMap(cached: set<string>, capacity: nat)

  predicate NotFull(m: ReaderMap) {
    |m.cached| < m.capacity
  }

  /** std::invalid_argument of run and run_rgb_out. */
  datatype RunError =
    | LengthMismatch(paths: nat, ids: nat)
    | TooManyFiles(files: nat, numOfFile: int)

  /** The `static_cast<size_t>` the size check applies to num_of_file. */
  function SizeOf(n: int): (r: nat)
    requires -0x8000_0000 <= n
    ensures n >= 0 ==> r == n
    ensures n < 0 ==> r >= 0x8000_0000_0000_0000
  {
    if n >= 0 then n else n + 0x1_0000_0000_0000_0000
  }

  /** The admission prefix of run and run_rgb_out: the argument checks, then
      for each position i whether a new reader is constructed for the i-th
      file. The reader table holds num_of_file maps. */
  function AdmitReaders(maps: seq<ReaderMap>, numOfFile: int, paths: seq<string>, ids: seq<int>)
    : (r: Result<seq<bool>, RunError>)
    requires numOfFile >= 0 && |maps| == numOfFile
    ensures r == Err(LengthMismatch(|paths|, |ids|)) <==> |paths| != |ids|
    ensures r == Err(TooManyFiles(|paths|, numOfFile)) <==> |paths| == |ids| && |paths| > numOfFile
    ensures r.Ok? ==>
              |r.value| == |paths| &&
              forall i :: 0 <= i < |paths| ==>
                (r.value[i] <==> NotFull(maps[i]) && paths[i] !in maps[i].cached)
  {
    if |paths| != |ids| then Err(LengthMismatch(|paths|, |ids|))
    else if |paths| > SizeOf(numOfFile) then Err(TooManyFiles(|paths|, numOfFile))
    else Ok(seq(|paths|, i requires 0 <= i < |paths| => NotFull(maps[i]) && paths[i] !in maps[i].cached))
  }

  /** A call that gets past the checks uses one reader map per file and
      never asks a map for more than one path. */
  lemma AdmittedRunFitsReaderTable(maps: seq<ReaderMap>, numOfFile: int, paths: seq<string>, ids: seq<int>)
    requires numOfFile >= 0 && |maps| == numOfFile
    requires AdmitReaders(maps, numOfFile, paths, ids).Ok?
    ensures |paths| == |ids| <= |maps|
  {
  }

  /** A file whose map already caches it never gets a new reader, and a full
      map never gets one either. */
  lemma NoReaderForCachedOrFull(maps: seq<ReaderMap>, numOfFile: int, paths: seq<string>, ids: seq<int>, i: int)
    requires numOfFile >= 0 && |maps| == numOfFile
    requires AdmitReaders(maps, numOfFile, paths, ids).Ok? && 0 <= i < |paths|
    requires paths[i] in maps[i].cached || !NotFull(maps[i])
    ensures !AdmitReaders(maps, numOfFile, paths, ids).value[i]
  {
  }
}
