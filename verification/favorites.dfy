/**
 * The favourites tracker of hooks/useFavorites.ts: a set of photo
 * identifiers, toggled one identifier at a time, with a confirmation message
 * per toggle. The native toast is a sink that may be missing or may throw;
 * either way it never affects the set.
 */
module Favorites {

  type PhotoId = string

  const AddedMessage := "Image added to favorites"
  const RemovedMessage := "Image removed from favorites"

  /** What the platform offers for `showToast`: nothing, or a sink that either
      displays the message or throws. */
  datatype ToastSink = Unavailable | Available(throws: bool)

  /** What became of one confirmation: not attempted, displayed, or thrown and logged. */
  datatype ToastEffect = NotAttempted | Shown(message: string) | FailedAndLogged(message: string)

  /** The outcome of one toggle: the new set, the message chosen, and the toast's fate. */
  datatype Toggled = Toggled(favorites: set<PhotoId>, message: string, toast: ToastEffect)

  /** The tracker starts with nothing marked. */
  function InitialFavorites(): (f: set<PhotoId>)
    ensures forall id :: !IsFavorite(f, id)
  {
    {}
  }

  /** `isFavorite(id)`: a pure membership query. */
  predicate IsFavorite(favorites: set<PhotoId>, id: PhotoId) {
    id in favorites
  }

  /** The confirmation text, chosen by the membership before the toggle. */
  function ConfirmationMessage(wasFavorite: bool): (m: string)
    ensures m == RemovedMessage <==> wasFavorite
    ensures m == AddedMessage <==> !wasFavorite
  {
    if wasFavorite then RemovedMessage else AddedMessage
  }

  /** Attempting the toast: only when the sink exists; a throw is swallowed. */
  function ShowToast(sink: ToastSink, message: string): (e: ToastEffect)
    ensures e.NotAttempted? <==> sink.Unavailable?
    ensures !e.NotAttempted? ==> e.message == message
    ensures e.Shown? <==> sink.Available? && !sink.throws
  {
    match sink
    case Unavailable => NotAttempted
    case Available(throws) => if throws then FailedAndLogged(message) else Shown(message)
  }

  /** `toggleFavorite(id)`: flips the membership of `id` and of nothing else,
      and confirms with the message for the direction taken. */
  function Toggle(favorites: set<PhotoId>, id: PhotoId, sink: ToastSink): (r: Toggled)
    ensures IsFavorite(r.favorites, id) <==> !IsFavorite(favorites, id)
    ensures forall other :: other != id ==> (IsFavorite(r.favorites, other) <==> IsFavorite(favorites, other))
    ensures r.message == RemovedMessage <==> IsFavorite(favorites, id)
    ensures r.message == AddedMessage <==> !IsFavorite(favorites, id)
    ensures sink.Available? ==> !r.toast.NotAttempted? && r.toast.message == r.message
    ensures r.toast.NotAttempted? <==> sink.Unavailable?
  {
    var wasFavorite := id in favorites;
    var next := if wasFavorite then favorites - {id} else favorites + {id};
    var message := ConfirmationMessage(wasFavorite);
    Toggled(next, message, ShowToast(sink, message))
  }

  /** The toast cannot change the outcome: the set and the message are the
      same whether the sink is missing, works or throws. */
  lemma ToggleIgnoresSink(favorites: set<PhotoId>, id: PhotoId, s1: ToastSink, s2: ToastSink)
    ensures Toggle(favorites, id, s1).favorites == Toggle(favorites, id, s2).favorites
    ensures Toggle(favorites, id, s1).message == Toggle(favorites, id, s2).message
  {
  }

  /** Toggling the same identifier twice restores the set, and the two
      confirmations point in opposite directions. */
  lemma ToggleTwiceRestores(favorites: set<PhotoId>, id: PhotoId, s1: ToastSink, s2: ToastSink)
    ensures var first := Toggle(favorites, id, s1);
            var second := Toggle(first.favorites, id, s2);
            second.favorites == favorites && first.message != second.message
  {
    var first := Toggle(favorites, id, s1);
    var second := Toggle(first.favorites, id, s2);
    assert second.favorites == favorites by {
      forall x ensures x in second.favorites <==> x in favorites {
        assert IsFavorite(second.favorites, x) <==> IsFavorite(favorites, x);
      }
    }
  }

  /** A run of taps, all with the same sink: the final set and the toast log. */
  function ToggleAll(favorites: set<PhotoId>, ids: seq<PhotoId>, sink: ToastSink): (r: (set<PhotoId>, seq<ToastEffect>))
    ensures |r.1| == |ids|
    decreases |ids|
  {
    if |ids| == 0 then (favorites, [])
    else
      var t := Toggle(favorites, ids[0], sink);
      var rest := ToggleAll(t.favorites, ids[1..], sink);
      (rest.0, [t.toast] + rest.1)
  }

  /** How many times `x` occurs in `ids`. */
  function Occurrences(ids: seq<PhotoId>, x: PhotoId): nat {
    if |ids| == 0 then 0 else (if ids[0] == x then 1 else 0) + Occurrences(ids[1..], x)
  }

  /** After any run of taps, an identifier is a favourite exactly when it
      started as one and was tapped an even number of times, or started as
      none and was tapped an odd number of times. */
  lemma {:induction false} ToggleAllParity(favorites: set<PhotoId>, ids: seq<PhotoId>, sink: ToastSink, x: PhotoId)
    ensures IsFavorite(ToggleAll(favorites, ids, sink).0, x)
        <==> (IsFavorite(favorites, x) != (Occurrences(ids, x) % 2 == 1))
    decreases |ids|
  {
    if |ids| > 0 {
      var t := Toggle(favorites, ids[0], sink);
      ToggleAllParity(t.favorites, ids[1..], sink, x);
    }
  }

  /** With a working sink every tap displays exactly one confirmation, and it
      names the direction that tap took. */
  lemma {:induction false} ToggleAllConfirmsEachTap(favorites: set<PhotoId>, ids: seq<PhotoId>, i: nat)
    requires i < |ids|
    ensures var before := ToggleAll(favorites, ids[..i], Available(false)).0;
            ToggleAll(favorites, ids, Available(false)).1[i]
              == Shown(if IsFavorite(before, ids[i]) then RemovedMessage else AddedMessage)
    decreases i
  {
    if i > 0 {
      var t := Toggle(favorites, ids[0], Available(false));
      assert ids[1..][..i - 1] == ids[..i][1..];
      ToggleAllConfirmsEachTap(t.favorites, ids[1..], i - 1);
    }
  }

}
