/**
 The edit history: `ImageState` of types.ts and the pure updaters that the
 App and Editor components pass to `setImageState`. Images are the data-URL
 strings the components store; `None` is `null`.
 */
module History {
  import opened Js

  /** `original` is the upload, `current` the image shown, `history` the earlier currents, oldest first. */
  datatype ImageState = ImageState(original: Option<string>, current: Option<string>, history: seq<string>)

  /** Before any upload (App.tsx, first `useState`), and after "Upload another image". */
  const Empty: ImageState := ImageState(None, None, [])

  /** The most recent entry of a non-empty history: the one undo pops. */
  function Last(h: seq<string>): string
    requires |h| > 0
  {
    h[|h| - 1]
  }

  /** The state an upload installs: the image is both original and current, with no history. */
  function Fresh(url: string): (s: ImageState)
    ensures s.original == s.current == Some(url)
    ensures s.history == []
  {
    ImageState(Some(url), Some(url), [])
  }

  /** The updater of a successful edit: push the old current, show the new image. */
  function Commit(prev: ImageState, url: string): (s: ImageState)
    requires prev.current.Some?
    ensures s.original == prev.original
    ensures s.current == Some(url)
    ensures |s.history| == |prev.history| + 1
    ensures s.history[..|prev.history|] == prev.history
    ensures Last(s.history) == prev.current.value
  {
    assert (prev.history + [prev.current.value])[..|prev.history|] == prev.history;
    ImageState(prev.original, Some(url), prev.history + [prev.current.value])
  }

  /**
   The undo updater: no change on an empty history; otherwise the last entry is
   removed and shown, or the original is shown when that entry is the empty string.
   */
  function Undo(s: ImageState): (r: ImageState)
    ensures |s.history| == 0 ==> r == s
    ensures |s.history| > 0 ==> r.history + [Last(s.history)] == s.history
    ensures |s.history| > 0 && Truthy(Last(s.history)) ==> r.current == Some(Last(s.history))
    ensures |s.history| > 0 && !Truthy(Last(s.history)) ==> r.current == s.original
    ensures r.original == s.original
  {
    if |s.history| == 0 then s
    else
      var popped := Last(s.history);
      var rest := s.history[..|s.history| - 1];
      assert rest + [popped] == s.history;
      ImageState(s.original, if Truthy(popped) then Some(popped) else s.original, rest)
  }

  /** The confirmed "Revert All" updater: back to the original, history emptied. */
  function Revert(s: ImageState): (r: ImageState)
    ensures r.original == s.original
    ensures r.current == s.original
    ensures r.history == []
  {
    ImageState(s.original, s.original, [])
  }

  /** The first thumbnail of the history strip: show the original. */
  function SelectOriginal(s: ImageState): (r: ImageState)
    ensures r.current == s.original
    ensures r.original == s.original && r.history == s.history
  {
    s.(current := s.original)
  }

  /** Thumbnail `i` of the history strip: show that entry; nothing is removed. */
  function SelectEntry(s: ImageState, i: nat): (r: ImageState)
    requires i < |s.history|
    ensures r.current == Some(s.history[i])
    ensures r.original == s.original && r.history == s.history
  {
    s.(current := Some(s.history[i]))
  }

  /** Undo right after a commit gives back the state before the commit. */
  lemma UndoAfterCommit(s: ImageState, url: string)
    requires s.current.Some? && Truthy(s.current.value)
    ensures Undo(Commit(s, url)) == s
  {
  }

  /** Reverting twice is reverting once. */
  lemma RevertIdempotent(s: ImageState)
    ensures Revert(Revert(s)) == Revert(s)
  {
  }

  /** Navigation never touches original or history, and choosing the same thumbnail twice is choosing it once. */
  lemma SelectionIsNavigation(s: ImageState, i: nat)
    requires i < |s.history|
    ensures SelectEntry(SelectEntry(s, i), i) == SelectEntry(s, i)
    ensures SelectOriginal(SelectOriginal(s)) == SelectOriginal(s)
    ensures SelectEntry(s, i).history == s.history && SelectOriginal(s).history == s.history
  {
  }

  /** Commits of `urls`, one after another, starting from `s`. */
  function Commits(s: ImageState, urls: seq<string>): (r: ImageState)
    requires s.current.Some?
    ensures r.original == s.original
    ensures |r.history| == |s.history| + |urls|
    ensures r.current.Some?
    decreases |urls|
  {
    if |urls| == 0 then s else Commit(Commits(s, urls[..|urls| - 1]), Last(urls))
  }

  /** After uploading I0 and committing I1..In: history is [I0..I(n-1)] and current is In. */
  lemma {:induction false} CommitsFromUpload(i0: string, urls: seq<string>)
    requires |urls| > 0
    ensures Commits(Fresh(i0), urls) == ImageState(Some(i0), Some(Last(urls)), [i0] + urls[..|urls| - 1])
    decreases |urls|
  {
    var n := |urls|;
    if n > 1 {
      var init := urls[..n - 1];
      CommitsFromUpload(i0, init);
      assert init[..n - 2] == urls[..n - 2];
      assert [i0] + urls[..n - 2] + [Last(init)] == [i0] + urls[..n - 1];
    }
  }

  /** `k` clicks on Undo. */
  function UndoTimes(s: ImageState, k: nat): (r: ImageState)
    ensures r.original == s.original
    ensures |r.history| == if k <= |s.history| then |s.history| - k else 0
  {
    if k == 0 then s else Undo(UndoTimes(s, k - 1))
  }

  /** Undoing `k` of `n` commits leaves exactly the state after the first `n - k` commits. */
  lemma {:induction false} UndoUnwindsCommits(s: ImageState, urls: seq<string>, k: nat)
    requires s.current.Some? && Truthy(s.current.value)
    requires forall i :: 0 <= i < |urls| ==> Truthy(urls[i])
    requires k <= |urls|
    ensures UndoTimes(Commits(s, urls), k) == Commits(s, urls[..|urls| - k])
  {
    if k > 0 {
      var n := |urls|;
      UndoUnwindsCommits(s, urls, k - 1);
      var keep := urls[..n - (k - 1)];
      assert keep[..|keep| - 1] == urls[..n - k];
      var before := Commits(s, urls[..n - k]);
      assert Truthy(before.current.value) by {
        if n - k > 0 {
          assert Last(urls[..n - k]) == urls[n - k - 1];
        }
      }
      UndoAfterCommit(before, Last(keep));
    } else {
      assert urls[..|urls|] == urls;
    }
  }

  /**
   Anchored: an empty history means the original is shown, and a non-empty
   history starts with the original -- every session of edits since the last
   upload or revert began from the original.
   */
  predicate Anchored(s: ImageState) {
    && (s.history == [] ==> s.current == s.original)
    && (s.history != [] ==> s.original == Some(s.history[0]))
  }

  /** Every history entry is a non-empty string. */
  predicate EntriesTruthy(s: ImageState) {
    forall i :: 0 <= i < |s.history| ==> Truthy(s.history[i])
  }

  /** Undoing every entry of an anchored history ends exactly where "Revert All" goes. */
  lemma {:induction false} UndoAllIsRevert(s: ImageState)
    requires Anchored(s) && EntriesTruthy(s)
    ensures UndoTimes(s, |s.history|) == Revert(s)
    decreases |s.history|
  {
    if |s.history| > 0 {
      var n := |s.history|;
      var u := Undo(s);
      assert u.history == s.history[..n - 1];
      if n == 1 {
        assert u.current == Some(s.history[0]);
      } else {
        assert u.history[0] == s.history[0];
        UndoAllIsRevert(u);
      }
      UndoTimesUnfold(s, n);
    }
  }

  /** `k` undos are one undo followed by `k - 1` more. */
  lemma {:induction false} UndoTimesUnfold(s: ImageState, k: nat)
    requires k > 0
    ensures UndoTimes(s, k) == UndoTimes(Undo(s), k - 1)
  {
    if k > 1 {
      UndoTimesUnfold(s, k - 1);
    }
  }
}
