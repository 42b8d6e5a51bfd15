/** One pass of `cleanup_task` over the data directory: regular files whose
    age in whole days exceeds the retention window are deleted. */
module Retention {

  const SecondsPerDay: int := 86400

  /** `MAX_AGE_DAYS`: files are kept while their age in whole days is at most this. */
  const MaxAgeDays: int := 30

  /** What the pass sees of one name in the data directory listing:
      whether it is a regular file, and its creation time in seconds. */
  datatype Entry = Entry(isFile: bool, ctime: int)

  /** `(now - creation_time).days`: the age in whole days, rounded down, so
      negative for a creation time in the future. */
  function AgeDays(now: int, ctime: int): (d: int)
    ensures d * SecondsPerDay <= now - ctime < (d + 1) * SecondsPerDay
  {
    (now - ctime) / SecondsPerDay
  }

  /** An age above `MaxAgeDays` whole days means at least 31 full days. */
  lemma AgeAboveLimit(now: int, ctime: int)
    ensures AgeDays(now, ctime) > MaxAgeDays <==> now - ctime >= (MaxAgeDays + 1) * SecondsPerDay
  {
    var d := AgeDays(now, ctime);
    if d > MaxAgeDays {
      assert d * SecondsPerDay >= (MaxAgeDays + 1) * SecondsPerDay;
    } else {
      assert (d + 1) * SecondsPerDay <= (MaxAgeDays + 1) * SecondsPerDay;
    }
  }

  /** The pass deletes this entry: a regular file whose age in whole days
      exceeds `MaxAgeDays`, that is, one at least 31 full days old. */
  function Expired(e: Entry, now: int): (b: bool)
    ensures b <==> e.isFile && now - e.ctime >= (MaxAgeDays + 1) * SecondsPerDay
  {
    AgeAboveLimit(now, e.ctime);
    e.isFile && AgeDays(now, e.ctime) > MaxAgeDays
  }

  /** The listing after one pass in which no step raises: the
      directories, and the files younger than 31 full days, unchanged. */
  function Sweep(listing: map<string, Entry>, now: int): (kept: map<string, Entry>)
    ensures kept.Keys <= listing.Keys
    ensures forall n :: n in kept ==> kept[n] == listing[n]
    ensures forall n :: n in listing ==>
      (n !in kept <==> listing[n].isFile && now - listing[n].ctime >= (MaxAgeDays + 1) * SecondsPerDay)
  {
    map n | n in listing && !Expired(listing[n], now) :: listing[n]
  }

  /** A second pass at the same moment deletes nothing more. */
  lemma SweepIdempotent(listing: map<string, Entry>, now: int)
    ensures Sweep(Sweep(listing, now), now) == Sweep(listing, now)
  {
    var once := Sweep(listing, now);
    assert Sweep(once, now).Keys == once.Keys;
  }

  /** A later pass deletes at least what an earlier one would. */
  lemma SweepMonotone(listing: map<string, Entry>, now: int, later: int)
    requires now <= later
    ensures Sweep(listing, later).Keys <= Sweep(listing, now).Keys
  {
  }

  /** Directories are never deleted; in particular the `images` directory,
      so the image files inside it are never reclaimed by the pass. */
  lemma DirectoriesSurvive(listing: map<string, Entry>, now: int, name: string)
    requires name in listing && !listing[name].isFile
    ensures name in Sweep(listing, now) && Sweep(listing, now)[name] == listing[name]
  {
  }

  /** A file created after `now` is never deleted. */
  lemma FutureFilesSurvive(listing: map<string, Entry>, now: int, name: string)
    requires name in listing && listing[name].ctime > now
    ensures name in Sweep(listing, now)
  {
  }

  /** The step of the pass for this name raises: it is a regular file and
      reading its creation time raises (`statOk` is false: the file vanished
      after the listing, or its time stamp is out of range), or it is
      expired and its removal raises (`removeOk` is false). */
  predicate StepRaises(name: string, listing: map<string, Entry>, now: int, statOk: string -> bool, removeOk: string -> bool)
    requires name in listing
  {
    listing[name].isFile && (!statOk(name) || (Expired(listing[name], now) && !removeOk(name)))
  }

  /** The expired names of a listing order, in that order. */
  function ExpiredNames(names: seq<string>, listing: map<string, Entry>, now: int): (r: seq<string>)
    requires forall k :: 0 <= k < |names| ==> names[k] in listing
    ensures |r| <= |names|
    ensures forall k :: 0 <= k < |r| ==> r[k] in listing && Expired(listing[r[k]], now)
    ensures forall k :: 0 <= k < |names| && Expired(listing[names[k]], now) ==> names[k] in r
  {
    if |names| == 0 then []
    else
      var rest := ExpiredNames(names[1..], listing, now);
      assert forall k :: 1 <= k < |names| ==> names[k] == names[1..][k - 1];
      if Expired(listing[names[0]], now) then [names[0]] + rest else rest
  }

  /** The index of the first name whose step raises, or the length of the
      order when none does. */
  function FirstFailure(order: seq<string>, listing: map<string, Entry>, now: int, statOk: string -> bool, removeOk: string -> bool): (f: nat)
    requires forall k :: 0 <= k < |order| ==> order[k] in listing
    ensures f <= |order|
    ensures forall k :: 0 <= k < f ==> !StepRaises(order[k], listing, now, statOk, removeOk)
    ensures f < |order| ==> StepRaises(order[f], listing, now, statOk, removeOk)
  {
    if |order| == 0 then 0
    else if StepRaises(order[0], listing, now, statOk, removeOk) then 0
    else
      var f := FirstFailure(order[1..], listing, now, statOk, removeOk);
      assert forall k :: 1 <= k <= f ==> order[k] == order[1..][k - 1];
      1 + f
  }

  /** The outcome of a pass over the listing in `os.listdir` order: the
      names removed, in order, and whether an exception ended the pass. */
  datatype PassResult = PassResult(removed: seq<string>, aborted: bool)

  /** The `for` loop of `cleanup_task` inside its single `try`: for each
      regular file the creation time is read, and an expired file is
      removed; the first step that raises (`statOk` or `removeOk` false)
      ends the whole pass, leaving later names untouched. `order` is the
      `os.listdir` order, which names each entry once; a repeated name would
      be removed twice here, where a second `os.remove` raises. */
  function Pass(order: seq<string>, listing: map<string, Entry>, now: int, statOk: string -> bool, removeOk: string -> bool): (r: PassResult)
    requires forall k :: 0 <= k < |order| ==> order[k] in listing
    ensures |r.removed| <= |order|
    ensures forall k :: 0 <= k < |r.removed| ==> r.removed[k] in listing && Expired(listing[r.removed[k]], now)
    ensures !r.aborted ==>
      forall k :: 0 <= k < |order| && Expired(listing[order[k]], now) ==> order[k] in r.removed
    ensures r.aborted <==> exists k :: 0 <= k < |order| && StepRaises(order[k], listing, now, statOk, removeOk)
  {
    if |order| == 0 then PassResult([], false)
    else
      var name := order[0];
      var rest := Pass(order[1..], listing, now, statOk, removeOk);
      if listing[name].isFile && !statOk(name) then PassResult([], true)
      else if !Expired(listing[name], now) then
        assert forall k :: 1 <= k < |order| ==> order[k] == order[1..][k - 1];
        rest
      else if removeOk(name) then
        assert forall k :: 1 <= k < |order| ==> order[k] == order[1..][k - 1];
        PassResult([name] + rest.removed, rest.aborted)
      else PassResult([], true)
  }

  /** A pass removes exactly the expired names that come before the first
      step that raises, in listing order, and it is aborted exactly when
      such a step exists. */
  lemma {:induction false} PassStopsAtFirstFailure(order: seq<string>, listing: map<string, Entry>, now: int, statOk: string -> bool, removeOk: string -> bool)
    requires forall k :: 0 <= k < |order| ==> order[k] in listing
    ensures var r := Pass(order, listing, now, statOk, removeOk);
      var f := FirstFailure(order, listing, now, statOk, removeOk);
      && (r.aborted <==> f < |order|)
      && r.removed == ExpiredNames(order[..f], listing, now)
  {
    if |order| > 0 {
      var tail := order[1..];
      var f := FirstFailure(order, listing, now, statOk, removeOk);
      PassStopsAtFirstFailure(tail, listing, now, statOk, removeOk);
      if !StepRaises(order[0], listing, now, statOk, removeOk) {
        var g := FirstFailure(tail, listing, now, statOk, removeOk);
        assert f == 1 + g;
        var front := order[..f];
        assert front[1..] == tail[..g];
      }
    }
  }

  lemma {:induction false} PassCompletes(order: seq<string>, listing: map<string, Entry>, now: int, statOk: string -> bool, removeOk: string -> bool)
    requires forall k :: 0 <= k < |order| ==> order[k] in listing
    requires forall n :: statOk(n) && removeOk(n)
    ensures !Pass(order, listing, now, statOk, removeOk).aborted
  {
    if |order| > 0 {
      PassCompletes(order[1..], listing, now, statOk, removeOk);
    }
  }

  /** When no creation-time read and no removal raises, a pass over the
      full listing leaves exactly what `Sweep` keeps. */
  lemma PassIsSweep(order: seq<string>, listing: map<string, Entry>, now: int, statOk: string -> bool, removeOk: string -> bool)
    requires forall n :: n in listing <==> n in order
    requires forall n :: statOk(n) && removeOk(n)
    ensures var removed := Pass(order, listing, now, statOk, removeOk).removed;
      listing - (set n | n in removed) == Sweep(listing, now)
  {
    PassCompletes(order, listing, now, statOk, removeOk);
    var removed := Pass(order, listing, now, statOk, removeOk).removed;
    var gone := set n | n in removed;
    forall n | n in listing
      ensures n in gone <==> Expired(listing[n], now)
    {
      if Expired(listing[n], now) {
        var k :| 0 <= k < |order| && order[k] == n;
        assert n in removed;
      }
    }
    assert (listing - gone).Keys == Sweep(listing, now).Keys;
  }
}
