/** When the image scan as written ends. A pass depends only on where it starts, and every
    start lies between 0 and the length of the body, so a scan that runs for more passes
    than that has visited some start twice and repeats itself from then on. A fuel larger
    than the body's length therefore decides whether the loop ever ends. */
module ScanTermination {
  import opened ImageRefs

  /** Where the `n`-th pass from `at` starts, or -1 when the loop has stopped before it. */
  function Pos(content: string, at: nat, n: nat): (r: int)
    requires at <= |content|
    ensures -1 <= r <= |content|
    decreases n
  {
    if n == 0 then at
    else
      match StepAsWritten(content, at)
      case Stop => -1
      case Found(_, next) => Pos(content, next, n - 1)
  }

  /** The loop is still running after `fuel` passes exactly when a `fuel`-th pass has a start. */
  lemma {:induction false} RunningIffPos(content: string, at: nat, fuel: nat, urls: seq<string>)
    requires at <= |content|
    ensures !ScanAsWritten(content, at, fuel, urls).1 <==> Pos(content, at, fuel) != -1
    decreases fuel
  {
    if fuel > 0 {
      match StepAsWritten(content, at)
      case Stop =>
      case Found(u, next) =>
        RunningIffPos(content, next, fuel - 1, urls + [u]);
    }
  }

  /** `a + b` passes are `a` passes, then `b` passes from where those stopped. */
  lemma {:induction false} PosAdd(content: string, at: nat, a: nat, b: nat)
    requires at <= |content|
    ensures Pos(content, at, a + b) ==
      if Pos(content, at, a) == -1 then -1 else Pos(content, Pos(content, at, a), b)
    decreases a
  {
    if a > 0 {
      match StepAsWritten(content, at)
      case Stop =>
      case Found(_, next) =>
        PosAdd(content, next, a - 1, b);
    }
  }

  /** A loop that has stopped stays stopped. */
  lemma PosStopped(content: string, at: nat, a: nat, b: nat)
    requires at <= |content| && a <= b
    requires Pos(content, at, a) == -1
    ensures Pos(content, at, b) == -1
  {
    PosAdd(content, at, a, b - a);
  }

  /** A start visited at passes `i` and `j > i` is visited again every `j - i` passes, so
      the loop never stops. */
  lemma {:induction false} RepeatedStartRunsForever(content: string, i: nat, j: nat, m: nat)
    requires i < j
    requires Pos(content, 0, i) == Pos(content, 0, j) != -1
    ensures Pos(content, 0, m) != -1
    decreases m
  {
    if m <= j {
      if Pos(content, 0, m) == -1 {
        PosStopped(content, 0, m, j);
      }
    } else {
      PosAdd(content, 0, j, m - j);
      PosAdd(content, 0, i, m - j);
      RepeatedStartRunsForever(content, i, j, i + (m - j));
    }
  }

  /** The starts of the first `n + 1` passes. */
  function Starts(content: string, n: nat): (r: seq<int>)
    ensures |r| == n + 1 && forall i :: 0 <= i <= n ==> r[i] == Pos(content, 0, i)
  {
    if n == 0 then [Pos(content, 0, 0)] else Starts(content, n - 1) + [Pos(content, 0, n)]
  }

  /** More than `m` values below `m` hold a repeat. */
  lemma {:induction false} Pigeonhole(xs: seq<int>, m: nat)
    requires |xs| > m
    requires forall i :: 0 <= i < |xs| ==> 0 <= xs[i] < m
    ensures exists i, j :: 0 <= i < j < |xs| && xs[i] == xs[j]
    decreases m
  {
    var last := |xs| - 1;
    var v := xs[last];
    if exists i :: 0 <= i < last && xs[i] == v {
      var i :| 0 <= i < last && xs[i] == v;
      assert xs[i] == xs[last];
    } else {
      var ys := seq(last, i requires 0 <= i < last => if xs[i] < v then xs[i] else xs[i] - 1);
      Pigeonhole(ys, m - 1);
      var i, j :| 0 <= i < j < |ys| && ys[i] == ys[j];
      assert xs[i] == xs[j];
    }
  }

  /** A scan that is still running after more passes than the body is long never ends:
      with that much fuel, `finished == false` means the program's loop runs forever. */
  lemma FuelDecides(content: string, fuel: nat)
    requires fuel > |content|
    ensures !ScanAsWritten(content, 0, fuel, []).1 ==> forall f :: !ScanAsWritten(content, 0, f, []).1
  {
    if !ScanAsWritten(content, 0, fuel, []).1 {
      RunningIffPos(content, 0, fuel, []);
      var xs := Starts(content, fuel);
      forall i | 0 <= i < |xs| ensures 0 <= xs[i] < |content| + 1 {
        if xs[i] == -1 {
          PosStopped(content, 0, i, fuel);
        }
      }
      Pigeonhole(xs, |content| + 1);
      var i, j :| 0 <= i < j < |xs| && xs[i] == xs[j];
      forall f ensures !ScanAsWritten(content, 0, f, []).1 {
        RepeatedStartRunsForever(content, i, j, f);
        RunningIffPos(content, 0, f, []);
      }
    }
  }
}
