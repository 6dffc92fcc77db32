/**
  `download_pictures` (getpics.py): numbered pictures are fetched one after
  another from `base_url`, each success is saved under the next free output
  number, and the loop stops after `max_fail` consecutive failures.  The
  web server is a finite map from URL to response; a URL it does not hold
  is a request that raised.
*/
module GetPics {
  import opened Text
  import SetFacts

  newtype byte = x: int | 0 <= x < 256

  /** What `session.get` returns: the status code and the body. */
  datatype Response = Response(status: int, content: seq<byte>)

  /** The responses the server would give; a missing URL is a request that raised. */
  type Server = map<string, Response>

  /** One picture written to the output directory: its file name there and its bytes. */
  datatype Saved = Saved(name: string, content: seq<byte>)

  /** `f"{base_url}{num}.{ext}"`. */
  function Url(baseUrl: string, num: nat, ext: string): string {
    baseUrl + NatToString(num) + "." + ext
  }

  /** `f"{saved + 1}.{ext}"` for the `k`-th saved picture. */
  function OutName(k: nat, ext: string): string {
    NatToString(k) + "." + ext
  }

  /** An attempt succeeds when the request returns, with status 200 and at least 1024 bytes. */
  predicate Ok(server: Server, url: string) {
    url in server && server[url].status == 200 && |server[url].content| >= 1024
  }

  function Body(server: Server, url: string): seq<byte> {
    if url in server then server[url].content else []
  }

  /** Consecutive failures that end the loop: `max_fail`, but at least one since `fail_count` starts at 1 on the first failure. */
  function Limit(maxFail: int): (l: nat)
    ensures l >= 1 && (maxFail >= 1 ==> l == maxFail)
  {
    if maxFail < 1 then 1 else maxFail
  }

  /** Different numbers give different URLs. */
  lemma UrlInjective(baseUrl: string, a: nat, b: nat, ext: string)
    requires Url(baseUrl, a, ext) == Url(baseUrl, b, ext)
    ensures a == b
  {
    var u, v := Url(baseUrl, a, ext), Url(baseUrl, b, ext);
    var da, db := NatToString(a), NatToString(b);
    assert |da| == |db|;
    assert u[|baseUrl|..|baseUrl| + |da|] == da;
    assert v[|baseUrl|..|baseUrl| + |db|] == db;
    NatToStringInjective(a, b);
  }

  // ------------------------------------------------------------ termination

  /** The successful URLs for numbers from `num` on: finitely many, as the server is finite. */
  ghost function OkFrom(server: Server, baseUrl: string, ext: string, num: nat): set<string> {
    set u | u in server.Keys && Ok(server, u) && exists k: nat :: num <= k && u == Url(baseUrl, k, ext)
  }

  /** Moving on to the next number never adds a successful URL ... */
  lemma OkFromMonotone(server: Server, baseUrl: string, ext: string, num: nat)
    ensures |OkFrom(server, baseUrl, ext, num + 1)| <= |OkFrom(server, baseUrl, ext, num)|
  {
    SetFacts.SubsetCard(OkFrom(server, baseUrl, ext, num + 1), OkFrom(server, baseUrl, ext, num));
  }

  /** ... and moving on past a successful number removes its URL. */
  lemma OkFromDrops(server: Server, baseUrl: string, ext: string, num: nat)
    requires Ok(server, Url(baseUrl, num, ext))
    ensures |OkFrom(server, baseUrl, ext, num + 1)| < |OkFrom(server, baseUrl, ext, num)|
  {
    var after, now := OkFrom(server, baseUrl, ext, num + 1), OkFrom(server, baseUrl, ext, num);
    var u := Url(baseUrl, num, ext);
    assert u in now;
    if u in after {
      var k: nat :| num + 1 <= k && u == Url(baseUrl, k, ext);
      UrlInjective(baseUrl, k, num, ext);
      assert false;
    }
    SetFacts.StrictSubsetCard(after, now);
  }

  // ---------------------------------------------------------- the specification

  /** Where the loop ends: what was saved, in order, and the first number not attempted. */
  datatype Outcome = Outcome(saved: seq<Saved>, next: nat)

  /**
    The loop from number `num` with `fails` consecutive failures so far and
    the pictures `saved` written so far.
  */
  function Loop(server: Server, baseUrl: string, ext: string, limit: nat, num: nat, fails: nat, saved: seq<Saved>): Outcome
    requires 1 <= limit && fails < limit
    decreases |OkFrom(server, baseUrl, ext, num)|, limit - fails
  {
    var url := Url(baseUrl, num, ext);
    if Ok(server, url) then
      OkFromDrops(server, baseUrl, ext, num);
      Loop(server, baseUrl, ext, limit, num + 1, 0, saved + [Saved(OutName(|saved| + 1, ext), server[url].content)])
    else if fails + 1 >= limit then Outcome(saved, num + 1)
    else
      OkFromMonotone(server, baseUrl, ext, num);
      Loop(server, baseUrl, ext, limit, num + 1, fails + 1, saved)
  }

  function Download(server: Server, baseUrl: string, startNum: nat, ext: string, maxFail: int): Outcome {
    Loop(server, baseUrl, ext, Limit(maxFail), startNum, 0, [])
  }

  lemma LoopSucceeds(server: Server, baseUrl: string, ext: string, limit: nat, num: nat, fails: nat, saved: seq<Saved>)
    requires 1 <= limit && fails < limit && Ok(server, Url(baseUrl, num, ext))
    ensures Loop(server, baseUrl, ext, limit, num, fails, saved)
      == Loop(server, baseUrl, ext, limit, num + 1, 0, saved + [Saved(OutName(|saved| + 1, ext), server[Url(baseUrl, num, ext)].content)])
  {
  }

  lemma LoopFails(server: Server, baseUrl: string, ext: string, limit: nat, num: nat, fails: nat, saved: seq<Saved>)
    requires fails + 1 < limit && !Ok(server, Url(baseUrl, num, ext))
    ensures Loop(server, baseUrl, ext, limit, num, fails, saved) == Loop(server, baseUrl, ext, limit, num + 1, fails + 1, saved)
  {
  }

  lemma LoopStops(server: Server, baseUrl: string, ext: string, limit: nat, num: nat, fails: nat, saved: seq<Saved>)
    requires fails < limit <= fails + 1 && !Ok(server, Url(baseUrl, num, ext))
    ensures Loop(server, baseUrl, ext, limit, num, fails, saved) == Outcome(saved, num + 1)
  {
  }

  /** `download_pictures(base_url, start_num, ext, out_dir, max_fail)`: the number saved, and the files written. */
  method DownloadPictures(server: Server, baseUrl: string, startNum: nat, ext: string, maxFail: int)
    returns (saved: nat, written: seq<Saved>)
    ensures written == Download(server, baseUrl, startNum, ext, maxFail).saved
    ensures saved == |written|
  {
    var failCount: nat := 0;
    var num: nat := startNum;
    saved := 0;
    written := [];
    ghost var limit := Limit(maxFail);
    while true
      invariant failCount < limit && saved == |written|
      invariant Loop(server, baseUrl, ext, limit, num, failCount, written) == Download(server, baseUrl, startNum, ext, maxFail)
      decreases |OkFrom(server, baseUrl, ext, num)|, limit - failCount
    {
      var url := Url(baseUrl, num, ext);
      var outPath := OutName(saved + 1, ext);
      if url in server && server[url].status == 200 && |server[url].content| >= 1024 {
        OkFromDrops(server, baseUrl, ext, num);
        LoopSucceeds(server, baseUrl, ext, limit, num, failCount, written);
        written := written + [Saved(outPath, server[url].content)];
        saved := saved + 1;
        failCount := 0;
        num := num + 1;
      } else {
        OkFromMonotone(server, baseUrl, ext, num);
        failCount := failCount + 1;
        num := num + 1;
        if failCount >= maxFail {
          LoopStops(server, baseUrl, ext, limit, num - 1, failCount - 1, written);
          break;
        }
        LoopFails(server, baseUrl, ext, limit, num - 1, failCount - 1, written);
      }
    }
  }

  // ------------------------------------------------------------ properties

  /** The `len` attempts from number `lo` on all fail. */
  ghost predicate FailRun(server: Server, baseUrl: string, ext: string, lo: nat, len: nat) {
    forall k: nat :: lo <= k < lo + len ==> !Ok(server, Url(baseUrl, k, ext))
  }

  /** The numbers in `[lo, hi)` whose attempt succeeds, ascending. */
  function Successes(server: Server, baseUrl: string, ext: string, lo: nat, hi: nat): seq<nat>
    decreases hi
  {
    if hi <= lo then []
    else Successes(server, baseUrl, ext, lo, hi - 1) + (if Ok(server, Url(baseUrl, hi - 1, ext)) then [hi - 1] else [])
  }

  /** `Successes` lists only successful numbers in `[lo, hi)` ... */
  lemma {:induction false} SuccessesSound(server: Server, baseUrl: string, ext: string, lo: nat, hi: nat)
    ensures forall i :: 0 <= i < |Successes(server, baseUrl, ext, lo, hi)| ==>
      lo <= Successes(server, baseUrl, ext, lo, hi)[i] < hi && Ok(server, Url(baseUrl, Successes(server, baseUrl, ext, lo, hi)[i], ext))
    decreases hi
  {
    if hi > lo {
      SuccessesSound(server, baseUrl, ext, lo, hi - 1);
    }
  }

  /** ... in strictly ascending order ... */
  lemma {:induction false} SuccessesAscending(server: Server, baseUrl: string, ext: string, lo: nat, hi: nat)
    ensures forall i, j :: 0 <= i < j < |Successes(server, baseUrl, ext, lo, hi)| ==>
      Successes(server, baseUrl, ext, lo, hi)[i] < Successes(server, baseUrl, ext, lo, hi)[j]
    decreases hi
  {
    if hi > lo {
      var prev := Successes(server, baseUrl, ext, lo, hi - 1);
      SuccessesAscending(server, baseUrl, ext, lo, hi - 1);
      SuccessesSound(server, baseUrl, ext, lo, hi - 1);
      assert forall i :: 0 <= i < |prev| ==> prev[i] < hi - 1;
    }
  }

  /** ... and misses none of them. */
  lemma {:induction false} SuccessesComplete(server: Server, baseUrl: string, ext: string, lo: nat, hi: nat, k: nat)
    requires lo <= k < hi && Ok(server, Url(baseUrl, k, ext))
    ensures k in Successes(server, baseUrl, ext, lo, hi)
    decreases hi
  {
    if k < hi - 1 {
      SuccessesComplete(server, baseUrl, ext, lo, hi - 1, k);
    }
  }

  /** The files the successes `nums` produce: the `i`-th one under `i.ext`, with the bytes fetched for it. */
  function Files(server: Server, baseUrl: string, ext: string, nums: seq<nat>): (r: seq<Saved>)
    ensures |r| == |nums|
    ensures forall i :: 0 <= i < |r| ==> r[i] == Saved(OutName(i + 1, ext), Body(server, Url(baseUrl, nums[i], ext)))
  {
    seq(|nums|, i requires 0 <= i < |nums| => Saved(OutName(i + 1, ext), Body(server, Url(baseUrl, nums[i], ext))))
  }

  /** What holds at the top of every iteration, for a run that started at `start`. */
  ghost predicate Inv(server: Server, baseUrl: string, ext: string, limit: nat, start: nat, num: nat, fails: nat, saved: seq<Saved>) {
    && start <= num && fails <= num - start
    && FailRun(server, baseUrl, ext, num - fails, fails)
    && (num - fails > start ==> Ok(server, Url(baseUrl, num - fails - 1, ext)))
    && (forall j: nat :: start <= j && j + limit <= num ==> !FailRun(server, baseUrl, ext, j, limit))
    && saved == Files(server, baseUrl, ext, Successes(server, baseUrl, ext, start, num))
  }

  /** The stopping rule and the saved files, in terms of the attempts: see `DownloadTrace`. */
  ghost predicate Stopped(server: Server, baseUrl: string, ext: string, limit: nat, start: nat, r: Outcome) {
    && start + limit <= r.next
    && FailRun(server, baseUrl, ext, r.next - limit, limit)
    && (forall j: nat :: start <= j && j + limit < r.next ==> !FailRun(server, baseUrl, ext, j, limit))
    && r.saved == Files(server, baseUrl, ext, Successes(server, baseUrl, ext, start, r.next))
  }

  lemma SuccessesOk(server: Server, baseUrl: string, ext: string, lo: nat, hi: nat)
    requires lo <= hi && Ok(server, Url(baseUrl, hi, ext))
    ensures Successes(server, baseUrl, ext, lo, hi + 1) == Successes(server, baseUrl, ext, lo, hi) + [hi]
  {
  }

  lemma SuccessesFail(server: Server, baseUrl: string, ext: string, lo: nat, hi: nat)
    requires lo <= hi && !Ok(server, Url(baseUrl, hi, ext))
    ensures Successes(server, baseUrl, ext, lo, hi + 1) == Successes(server, baseUrl, ext, lo, hi)
  {
    assert Successes(server, baseUrl, ext, lo, hi) + [] == Successes(server, baseUrl, ext, lo, hi);
  }

  lemma FilesStep(server: Server, baseUrl: string, ext: string, nums: seq<nat>, n: nat)
    requires Ok(server, Url(baseUrl, n, ext))
    ensures Files(server, baseUrl, ext, nums + [n])
      == Files(server, baseUrl, ext, nums) + [Saved(OutName(|nums| + 1, ext), server[Url(baseUrl, n, ext)].content)]
  {
  }

  /** A success keeps the invariant, with the failure count reset and one more file. */
  lemma InvAfterOk(server: Server, baseUrl: string, ext: string, limit: nat, start: nat, num: nat, fails: nat, saved: seq<Saved>)
    requires 1 <= limit && Inv(server, baseUrl, ext, limit, start, num, fails, saved)
    requires Ok(server, Url(baseUrl, num, ext))
    ensures Inv(server, baseUrl, ext, limit, start, num + 1, 0, saved + [Saved(OutName(|saved| + 1, ext), server[Url(baseUrl, num, ext)].content)])
  {
    SuccessesOk(server, baseUrl, ext, start, num);
    FilesStep(server, baseUrl, ext, Successes(server, baseUrl, ext, start, num), num);
    forall j: nat | start <= j && j + limit <= num + 1
      ensures !FailRun(server, baseUrl, ext, j, limit)
    {
      if j + limit == num + 1 {
        assert Ok(server, Url(baseUrl, num, ext));
      }
    }
  }

  /** A failure short of the limit keeps the invariant, with one more failure counted. */
  lemma InvAfterFail(server: Server, baseUrl: string, ext: string, limit: nat, start: nat, num: nat, fails: nat, saved: seq<Saved>)
    requires fails + 1 < limit && Inv(server, baseUrl, ext, limit, start, num, fails, saved)
    requires !Ok(server, Url(baseUrl, num, ext))
    ensures Inv(server, baseUrl, ext, limit, start, num + 1, fails + 1, saved)
  {
    SuccessesFail(server, baseUrl, ext, start, num);
    forall j: nat | start <= j && j + limit <= num + 1
      ensures !FailRun(server, baseUrl, ext, j, limit)
    {
      if j + limit == num + 1 {
        assert Ok(server, Url(baseUrl, num - fails - 1, ext));
      }
    }
  }

  /** The failure that reaches the limit ends the run in the `Stopped` state. */
  lemma InvStops(server: Server, baseUrl: string, ext: string, limit: nat, start: nat, num: nat, fails: nat, saved: seq<Saved>)
    requires fails < limit <= fails + 1 && Inv(server, baseUrl, ext, limit, start, num, fails, saved)
    requires !Ok(server, Url(baseUrl, num, ext))
    ensures Stopped(server, baseUrl, ext, limit, start, Outcome(saved, num + 1))
  {
    SuccessesFail(server, baseUrl, ext, start, num);
  }

  lemma {:induction false} LoopTrace(server: Server, baseUrl: string, ext: string, limit: nat, start: nat, num: nat, fails: nat, saved: seq<Saved>)
    requires 1 <= limit && fails < limit
    requires Inv(server, baseUrl, ext, limit, start, num, fails, saved)
    ensures Stopped(server, baseUrl, ext, limit, start, Loop(server, baseUrl, ext, limit, num, fails, saved))
    decreases |OkFrom(server, baseUrl, ext, num)|, limit - fails
  {
    if Ok(server, Url(baseUrl, num, ext)) {
      OkFromDrops(server, baseUrl, ext, num);
      InvAfterOk(server, baseUrl, ext, limit, start, num, fails, saved);
      LoopSucceeds(server, baseUrl, ext, limit, num, fails, saved);
      LoopTrace(server, baseUrl, ext, limit, start, num + 1, 0, saved + [Saved(OutName(|saved| + 1, ext), server[Url(baseUrl, num, ext)].content)]);
    } else if fails + 1 >= limit {
      InvStops(server, baseUrl, ext, limit, start, num, fails, saved);
      LoopStops(server, baseUrl, ext, limit, num, fails, saved);
    } else {
      OkFromMonotone(server, baseUrl, ext, num);
      InvAfterFail(server, baseUrl, ext, limit, start, num, fails, saved);
      LoopFails(server, baseUrl, ext, limit, num, fails, saved);
      LoopTrace(server, baseUrl, ext, limit, start, num + 1, fails + 1, saved);
    }
  }

  /**
    What the loop does, in terms of the attempts `start_num, start_num + 1, ...`:
    it stops right after the first `Limit(max_fail)` consecutive failures, so
    at least that many numbers are tried and no earlier window of that many
    failed; and the saved files are the successes in order, the `i`-th under
    `i.ext`.
  */
  lemma DownloadTrace(server: Server, baseUrl: string, startNum: nat, ext: string, maxFail: int)
    ensures Stopped(server, baseUrl, ext, Limit(maxFail), startNum, Download(server, baseUrl, startNum, ext, maxFail))
  {
    LoopTrace(server, baseUrl, ext, Limit(maxFail), startNum, startNum, 0, []);
  }

  lemma {:induction false} SuccessesAllOk(server: Server, baseUrl: string, ext: string, lo: nat, n: nat)
    requires forall k: nat :: lo <= k < lo + n ==> Ok(server, Url(baseUrl, k, ext))
    ensures Successes(server, baseUrl, ext, lo, lo + n) == Range(lo, lo + n)
  {
    if n > 0 {
      var m: nat := lo + n - 1;
      assert Ok(server, Url(baseUrl, m, ext));
      SuccessesAllOk(server, baseUrl, ext, lo, n - 1);
      SuccessesOk(server, baseUrl, ext, lo, m);
      RangeSnoc(lo, m);
    }
  }

  lemma {:induction false} SuccessesNoneOk(server: Server, baseUrl: string, ext: string, lo: nat, hi: nat, n: nat)
    requires lo <= hi && FailRun(server, baseUrl, ext, hi, n)
    ensures Successes(server, baseUrl, ext, lo, hi + n) == Successes(server, baseUrl, ext, lo, hi)
  {
    if n > 0 {
      assert FailRun(server, baseUrl, ext, hi, n - 1);
      SuccessesNoneOk(server, baseUrl, ext, lo, hi, n - 1);
      assert !Ok(server, Url(baseUrl, hi + n - 1, ext));
      SuccessesFail(server, baseUrl, ext, lo, hi + n - 1);
    }
  }

  /** With `n` pictures in a row and then `Limit(max_fail)` missing ones, the run stops right after those misses. */
  lemma DownloadRunStops(server: Server, baseUrl: string, startNum: nat, ext: string, maxFail: int, n: nat)
    requires forall k: nat :: startNum <= k < startNum + n ==> Ok(server, Url(baseUrl, k, ext))
    requires FailRun(server, baseUrl, ext, startNum + n, Limit(maxFail))
    ensures Download(server, baseUrl, startNum, ext, maxFail).next == startNum + n + Limit(maxFail)
  {
    var limit, r := Limit(maxFail), Download(server, baseUrl, startNum, ext, maxFail);
    DownloadTrace(server, baseUrl, startNum, ext, maxFail);
    assert r.next <= startNum + n + limit;
    var m: nat := r.next - limit;
    assert m < startNum + n ==> Ok(server, Url(baseUrl, m, ext));
    assert !Ok(server, Url(baseUrl, m, ext));
  }

  /** ... and the files written are exactly those `n` pictures, in order, named `1.ext` to `n.ext`. */
  lemma DownloadRunSaves(server: Server, baseUrl: string, startNum: nat, ext: string, maxFail: int, n: nat)
    requires forall k: nat :: startNum <= k < startNum + n ==> Ok(server, Url(baseUrl, k, ext))
    requires FailRun(server, baseUrl, ext, startNum + n, Limit(maxFail))
    ensures |Download(server, baseUrl, startNum, ext, maxFail).saved| == n
    ensures forall i :: 0 <= i < n ==>
      Download(server, baseUrl, startNum, ext, maxFail).saved[i] == Saved(OutName(i + 1, ext), Body(server, Url(baseUrl, startNum + i, ext)))
  {
    var r := Download(server, baseUrl, startNum, ext, maxFail);
    DownloadTrace(server, baseUrl, startNum, ext, maxFail);
    DownloadRunStops(server, baseUrl, startNum, ext, maxFail, n);
    SuccessesNoneOk(server, baseUrl, ext, startNum, startNum + n, Limit(maxFail));
    SuccessesAllOk(server, baseUrl, ext, startNum, n);
    RangeAt(startNum, startNum + n);
  }
}
