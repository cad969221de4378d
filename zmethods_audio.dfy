/**
  GetRandomClipAvoidingRecent of Runtime/ZMethodsAudio.cs: a clip is drawn from the less
  recently played half of the caller's list of clip indices, and its index is moved to the
  back of that list. The draw of Random.Range is a parameter.
*/
module ZMethodsAudio {
  import opened Wrappers

  /** What the method throws: the drawn position past the end of the caller's list, or a
      listed clip index outside the clip array. */
  datatype AudioError = ArgumentOutOfRange | IndexOutOfRange

  /** The caller's List<int> of clip indices, least recently played first; the method
      changes it in place. */
  class RecentList {
    var items: seq<int>

    constructor(initial: seq<int>)
      ensures items == initial
    {
      items := initial;
    }
  }

  /** s with the element at position r taken out and put at the end (RemoveAt, then Add). */
  function MoveToBack(s: seq<int>, r: nat): seq<int>
    requires r < |s|
  {
    s[..r] + s[r + 1..] + [s[r]]
  }

  /** Moving to the back keeps length and elements, puts the moved element last, keeps the
      elements before r in place and shifts those after r left by one. */
  lemma MoveToBackMeaning(s: seq<int>, r: nat)
    requires r < |s|
    ensures |MoveToBack(s, r)| == |s|
    ensures multiset(MoveToBack(s, r)) == multiset(s)
    ensures MoveToBack(s, r)[|s| - 1] == s[r]
    ensures forall i :: 0 <= i < r ==> MoveToBack(s, r)[i] == s[i]
    ensures forall i :: r < i < |s| ==> MoveToBack(s, r)[i - 1] == s[i]
  {
    assert s == s[..r] + [s[r]] + s[r + 1..];
  }

  /** Moving the last element to the back changes nothing. */
  lemma MoveLastToBack(s: seq<int>)
    requires |s| > 0
    ensures MoveToBack(s, |s| - 1) == s
  {
    assert s == s[..|s| - 1] + [s[|s| - 1]];
  }

  /** GetRandomClipAvoidingRecent, with draw the value Random.Range(0, n / 2) returns for n
      clips. No clip gives null and a single clip the clip itself, the list untouched both
      times. Otherwise the drawn position's index moves to the back and its clip is returned;
      an index outside the clips throws after the list has changed. */
  method GetRandomClipAvoidingRecent<Clip>(audioClips: seq<Clip>, recent: RecentList, draw: int)
    returns (r: Result<Option<Clip>, AudioError>)
    requires |audioClips| >= 2 ==> 0 <= draw < |audioClips| / 2
    modifies recent
    ensures |audioClips| == 0 ==> r == Success(None) && recent.items == old(recent.items)
    ensures |audioClips| == 1 ==> r == Success(Some(audioClips[0])) && recent.items == old(recent.items)
    ensures |audioClips| >= 2 && draw >= |old(recent.items)| ==>
      r == Failure(ArgumentOutOfRange) && recent.items == old(recent.items)
    ensures |audioClips| >= 2 && draw < |old(recent.items)| ==>
      recent.items == MoveToBack(old(recent.items), draw)
    ensures |audioClips| >= 2 && draw < |old(recent.items)| ==>
      var index := old(recent.items)[draw];
      r == if 0 <= index < |audioClips| then Success(Some(audioClips[index])) else Failure(IndexOutOfRange)
  {
    var numberOfAudioClips := |audioClips|;
    if numberOfAudioClips == 0 {
      return Success(None);
    }
    if numberOfAudioClips == 1 {
      return Success(Some(audioClips[0]));
    }
    var randomIndexFirstHalf := draw;
    if randomIndexFirstHalf >= |recent.items| {
      return Failure(ArgumentOutOfRange);
    }
    var audioClipIndex := recent.items[randomIndexFirstHalf];
    recent.items := recent.items[..randomIndexFirstHalf] + recent.items[randomIndexFirstHalf + 1..];
    recent.items := recent.items + [audioClipIndex];
    if !(0 <= audioClipIndex < numberOfAudioClips) {
      return Failure(IndexOutOfRange);
    }
    return Success(Some(audioClips[audioClipIndex]));
  }

  /** With the usual list, one index per clip and as long as the clip array, a draw picks a
      clip from the first half, the list stays a permutation of the same indices and the
      picked index ends up last. */
  lemma ClipFromFirstHalf(items: seq<int>, clipCount: nat, draw: nat)
    requires clipCount >= 2 && |items| == clipCount && draw < clipCount / 2
    ensures draw < |items| - 1
    ensures multiset(MoveToBack(items, draw)) == multiset(items)
    ensures MoveToBack(items, draw)[|items| - 1] == items[draw]
  {
    MoveToBackMeaning(items, draw);
  }
}
