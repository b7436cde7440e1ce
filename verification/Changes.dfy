/**
  A stream of values of which only the changes count: the pull-up that follows the wheel link,
  and the rev lights, which are sent on change.
 */
module Changes {

  /** The last value of `s`, `start` if there is none. */
  function LastOf<T>(start: T, s: seq<T>): T {
    if s == [] then start else s[|s| - 1]
  }

  /** `s` without the values that repeat the one before them (`start` before the first). */
  function Collapsed<T(==)>(start: T, s: seq<T>): seq<T> {
    if s == [] then []
    else
      var c := Collapsed(start, s[..|s| - 1]);
      if s[|s| - 1] == LastOf(start, c) then c else c + [s[|s| - 1]]
  }

  lemma {:induction false} CollapsedLast<T>(start: T, s: seq<T>)
    ensures LastOf(start, Collapsed(start, s)) == LastOf(start, s)
  {
    if s == [] {
    } else {
      CollapsedLast(start, s[..|s| - 1]);
    }
  }

  /** No value in it repeats the one before. */
  lemma {:induction false} CollapsedChanges<T>(start: T, s: seq<T>)
    ensures forall i :: 0 <= i < |Collapsed(start, s)| ==>
              Collapsed(start, s)[i] != LastOf(start, Collapsed(start, s)[..i])
  {
    if s == [] {
    } else {
      var c := Collapsed(start, s[..|s| - 1]);
      CollapsedChanges(start, s[..|s| - 1]);
      forall i | 0 <= i < |Collapsed(start, s)|
        ensures Collapsed(start, s)[i] != LastOf(start, Collapsed(start, s)[..i])
      {
        assert Collapsed(start, s)[..i] == c[..i];
        assert c[..|c|] == c;
      }
    }
  }

  lemma {:induction false} CollapsedPrefix<T>(start: T, s: seq<T>, k: nat)
    requires k <= |s|
    ensures Collapsed(start, s[..k]) <= Collapsed(start, s)
    decreases |s|
  {
    if k < |s| {
      CollapsedPrefix(start, s[..|s| - 1], k);
      assert s[..|s| - 1][..k] == s[..k];
    } else {
      assert s[..k] == s;
    }
  }

  lemma CollapsedNext<T>(start: T, s: seq<T>, v: T)
    ensures Collapsed(start, s + [v])
            == if v == LastOf(start, s) then Collapsed(start, s) else Collapsed(start, s) + [v]
  {
    assert (s + [v])[..|s|] == s;
    CollapsedLast(start, s);
  }

  /** A value other than the one before it is never lost: it is the next of the collapsed. */
  lemma ChangeShows<T>(start: T, s: seq<T>, k: nat)
    requires k < |s| && s[k] != LastOf(start, s[..k])
    ensures var c := Collapsed(start, s[..k]);
            |c| < |Collapsed(start, s)| && Collapsed(start, s)[..|c|] == c && Collapsed(start, s)[|c|] == s[k]
  {
    assert s[..k + 1] == s[..k] + [s[k]];
    CollapsedNext(start, s[..k], s[k]);
    CollapsedPrefix(start, s, k + 1);
  }

  /** So two changes in a row are two neighbours. */
  lemma NextChangeShows<T>(start: T, s: seq<T>, k: nat)
    requires k + 1 < |s| && s[k] != LastOf(start, s[..k]) && s[k + 1] != s[k]
    ensures var c := Collapsed(start, s[..k]);
            && |c| + 1 < |Collapsed(start, s)| && Collapsed(start, s)[..|c|] == c
            && Collapsed(start, s)[|c|] == s[k] && Collapsed(start, s)[|c| + 1] == s[k + 1]
  {
    hide Collapsed;
    assert s[..k + 1] == s[..k] + [s[k]];
    CollapsedNext(start, s[..k], s[k]);
    ChangeShows(start, s, k);
    ChangeShows(start, s, k + 1);
  }
}
