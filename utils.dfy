/** The general helpers of src/lib/utils.ts that do not depend on the
    browser, the locale or timers: truncation, due-date and relative-time
    bucketing over integer counts, stripping empty values from an object,
    and the Fisher-Yates shuffle with its random draws supplied. */
module Utils {
  import opened Js

  /** `str.length <= length ? str : str.slice(0, length) + '...'`. */
  function Truncate(str: string, length: int): (r: string)
    ensures |str| <= length ==> r == str
    ensures |str| > length && length >= 0 ==> |r| == length + 3 && r[..length] == str[..length] && r[length..] == "..."
    ensures |str| > length ==> r == SliceTo(str, length) + "..."
  {
    if |str| <= length then str else SliceTo(str, length) + "..."
  }

  // Due dates

  datatype DueDateStatus = Overdue | DueToday | DueSoon | Normal

  /** The label of a due date `daysUntil` whole days away (negative when
      past). */
  function GetDueDateStatus(daysUntil: int): (r: DueDateStatus)
    ensures r == Overdue <==> daysUntil < 0
    ensures r == DueToday <==> daysUntil == 0
    ensures r == DueSoon <==> 1 <= daysUntil <= 3
    ensures r == Normal <==> daysUntil > 3
  {
    if daysUntil < 0 then Overdue
    else if daysUntil == 0 then DueToday
    else if daysUntil <= 3 then DueSoon
    else Normal
  }

  /** How pressing a label is: overdue above due today above due soon
      above normal. */
  function Urgency(s: DueDateStatus): nat
  {
    match s
    case Overdue => 3
    case DueToday => 2
    case DueSoon => 1
    case Normal => 0
  }

  /** A later due date is never more pressing. */
  lemma {:induction false} DueDateStatusMonotone(d1: int, d2: int)
    requires d1 <= d2
    ensures Urgency(GetDueDateStatus(d2)) <= Urgency(GetDueDateStatus(d1))
  {
    var s1, s2 := GetDueDateStatus(d1), GetDueDateStatus(d2);
    assert s1 == Overdue || s1 == DueToday || s1 == DueSoon || s1 == Normal;
  }

  // Relative times

  /** The bucket `formatRelativeTime` picks for a difference in whole
      seconds, each unit counted by floor division. */
  datatype RelativeTime = JustNow | MinutesAgo(minutes: int) | HoursAgo(hours: int) | DaysAgo(days: int) | OnDate

  function RelativeBucket(diffInSeconds: int): (r: RelativeTime)
    ensures r == JustNow <==> diffInSeconds < 60
    ensures r.MinutesAgo? <==> 60 <= diffInSeconds < 3600
    ensures r.HoursAgo? <==> 3600 <= diffInSeconds < 86400
    ensures r.DaysAgo? <==> 86400 <= diffInSeconds < 604800
    ensures r == OnDate <==> diffInSeconds >= 604800
    ensures r.MinutesAgo? ==> 1 <= r.minutes <= 59 && r.minutes * 60 <= diffInSeconds < (r.minutes + 1) * 60
    ensures r.HoursAgo? ==> 1 <= r.hours <= 23 && r.hours * 3600 <= diffInSeconds < (r.hours + 1) * 3600
    ensures r.DaysAgo? ==> 1 <= r.days <= 6 && r.days * 86400 <= diffInSeconds < (r.days + 1) * 86400
  {
    if diffInSeconds < 60 then JustNow
    else
      var minutes := diffInSeconds / 60;
      if minutes < 60 then MinutesAgo(minutes)
      else
        var hours := minutes / 60;
        if hours < 24 then HoursAgo(hours)
        else
          var days := hours / 24;
          if days < 7 then DaysAgo(days) else OnDate
  }

  /** The text shown, with `formatted` standing for `formatDate(d)`. */
  function FormatRelativeTime(diffInSeconds: int, formatted: string): (r: string)
    ensures diffInSeconds < 60 ==> r == "たった今"
    ensures diffInSeconds >= 604800 ==> r == formatted
  {
    match RelativeBucket(diffInSeconds)
    case JustNow => "たった今"
    case MinutesAgo(m) => IntToString(m) + "分前"
    case HoursAgo(h) => IntToString(h) + "時間前"
    case DaysAgo(d) => IntToString(d) + "日前"
    case OnDate => formatted
  }

  // Empty values

  /** `value !== null && value !== undefined && value !== ''`. */
  predicate NonEmpty(v: Value)
  {
    v != Null && v != Undefined && v != Str("")
  }

  /** The entries of `obj` whose value is not empty. */
  function NonEmptyPart(obj: Record): Record
  {
    map k | k in obj && NonEmpty(obj[k]) :: obj[k]
  }

  /** Copies each entry whose value is not empty into a fresh accumulator. */
  method RemoveEmptyValues(obj: Record) returns (acc: Record)
    ensures acc.Keys <= obj.Keys
    ensures forall k | k in obj :: k in acc <==> NonEmpty(obj[k])
    ensures forall k | k in acc :: acc[k] == obj[k]
    ensures acc == NonEmptyPart(obj)
  {
    acc := map[];
    var remaining := obj.Keys;
    while remaining != {}
      invariant remaining <= obj.Keys
      invariant acc.Keys <= obj.Keys - remaining
      invariant forall k | k in obj.Keys - remaining :: k in acc <==> NonEmpty(obj[k])
      invariant forall k | k in acc :: acc[k] == obj[k]
      decreases remaining
    {
      var key :| key in remaining;
      var value := obj[key];
      if value != Null && value != Undefined && value != Str("") {
        acc := acc[key := value];
      }
      remaining := remaining - {key};
    }
    assert acc.Keys == NonEmptyPart(obj).Keys;
  }

  /** The non-empty part holds only non-empty values, so stripping it
      again changes nothing. */
  lemma {:induction false} RemoveEmptyValuesIdempotent(obj: Record)
    ensures forall k | k in NonEmptyPart(obj) :: NonEmpty(NonEmptyPart(obj)[k])
    ensures NonEmptyPart(NonEmptyPart(obj)) == NonEmptyPart(obj)
  {
    var once := NonEmptyPart(obj);
    assert forall k | k in once :: NonEmpty(once[k]);
    assert NonEmptyPart(once).Keys == once.Keys;
  }

  // Shuffle

  function Swap<T>(s: seq<T>, i: nat, j: nat): (r: seq<T>)
    requires i < |s| && j < |s|
    ensures |r| == |s|
    ensures r[i] == s[j] && r[j] == s[i]
    ensures forall k | 0 <= k < |s| && k != i && k != j :: r[k] == s[k]
  {
    seq(|s|, k requires 0 <= k < |s| => if k == j then s[i] else if k == i then s[j] else s[k])
  }

  /** `picks[i]` is the index `Math.floor(Math.random() * (i + 1))` drawn
      when the loop is at `i`, so it lies in `0..i`. */
  predicate Picks(picks: seq<nat>)
  {
    forall i | 0 <= i < |picks| :: picks[i] <= i
  }

  /** The array after the loop has swapped the top `m` positions,
      `|s| - 1` down to `|s| - m`, each with its drawn index. */
  function Shuffled<T>(s: seq<T>, picks: seq<nat>, m: nat): (r: seq<T>)
    requires |picks| == |s| && Picks(picks)
    requires m == 0 || m < |s|
    ensures |r| == |s|
  {
    if m == 0 then s
    else
      var i := |s| - m;
      Swap(Shuffled(s, picks, m - 1), i, picks[i])
  }

  /** Swapping two positions permutes the elements. */
  lemma {:induction false} SwapPermutes<T>(s: seq<T>, i: nat, j: nat)
    requires i < |s| && j < |s|
    ensures multiset(Swap(s, i, j)) == multiset(s)
  {
    assert Swap(s, i, j) == s[i := s[j]][j := s[i]];
  }

  /** Every state of the loop is a permutation of the input. */
  lemma {:induction false} ShuffledPermutes<T>(s: seq<T>, picks: seq<nat>, m: nat)
    requires |picks| == |s| && Picks(picks)
    requires m == 0 || m < |s|
    ensures multiset(Shuffled(s, picks, m)) == multiset(s)
  {
    if m > 0 {
      var prev := Shuffled(s, picks, m - 1);
      var i := |s| - m;
      var cur := Swap(prev, i, picks[i]);
      assert Shuffled(s, picks, m) == cur;
      ShuffledPermutes(s, picks, m - 1);
      SwapPermutes(prev, i, picks[i]);
    }
  }

  /** The loop at position `i` adds the swap of `i` with its pick. */
  lemma ShuffledNext<T>(s: seq<T>, picks: seq<nat>, i: nat)
    requires |picks| == |s| && Picks(picks)
    requires 0 < i < |s|
    ensures Shuffled(s, picks, |s| - 1 - (i - 1)) == Swap(Shuffled(s, picks, |s| - 1 - i), i, picks[i])
  {
  }

  /** `[a[i], a[j]] = [a[j], a[i]]`. */
  method SwapInPlace<T>(a: array<T>, i: nat, j: nat)
    requires i < a.Length && j < a.Length
    modifies a
    ensures a[..] == Swap(old(a[..]), i, j)
  {
    var held := a[i];
    a[i] := a[j];
    a[j] := held;
  }

  /** Swaps within a copy from the last position down to position 1, each
      position with the index drawn for it; the result is a permutation of
      the input (`ShuffledPermutes`), which is left as it was. */
  method Shuffle<T>(input: seq<T>, picks: seq<nat>) returns (result: seq<T>)
    requires |picks| == |input| && Picks(picks)
    ensures result == Shuffled(input, picks, if |input| == 0 then 0 else |input| - 1)
    ensures |result| == |input| && multiset(result) == multiset(input)
  {
    if |input| == 0 {
      return [];
    }
    var shuffled := new T[|input|](k requires 0 <= k < |input| => input[k]);
    var i := |input| - 1;
    while i > 0
      invariant 0 <= i <= |input| - 1
      invariant shuffled[..] == Shuffled(input, picks, |input| - 1 - i)
    {
      ShuffledNext(input, picks, i);
      SwapInPlace(shuffled, i, picks[i]);
      i := i - 1;
    }
    result := shuffled[..];
    ShuffledPermutes(input, picks, |input| - 1);
  }
}
