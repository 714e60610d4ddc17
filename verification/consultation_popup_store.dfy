/** The consultation-popup store of `consultationPopupStore.js`: whether the
    popup is open, and the callback to run when a consultation is submitted. */
module ConsultationPopupStore {

  /** The stored `onSuccess` value. JavaScript lets any value be stored;
      only a function is ever called, so the model tells apart `null`, a
      function (named by an identifier, so that calls can be observed) and
      any other value. */
  datatype Callback = Null | Function(id: nat) | NotAFunction

  datatype Popup = Popup(isOpen: bool, onSuccess: Callback)

  /** The store when created: closed, with no callback. */
  function Initial(): (p: Popup)
    ensures !p.isOpen && p.onSuccess.Null?
  {
    Popup(false, Null)
  }

  /** `openPopup(onSuccess)`: opens the popup and stores whatever it is
      given. The JavaScript default argument makes `openPopup()` the same as
      `OpenPopup(Null)`. */
  function OpenPopup(p: Popup, onSuccess: Callback): (r: Popup)
    ensures r.isOpen && r.onSuccess == onSuccess
  {
    Popup(true, onSuccess)
  }

  /** `closePopup()`: closes the popup and forgets the callback. */
  function ClosePopup(p: Popup): (r: Popup)
    ensures r == Initial()
  {
    Popup(false, Null)
  }

  /** `handleSuccess()`: calls the stored callback when it is a function,
      then closes the popup. The result pairs the new store with the
      identifiers of the functions called, in order. */
  function HandleSuccess(p: Popup): (r: (Popup, seq<nat>))
    ensures r.0 == ClosePopup(p)
    ensures |r.1| <= 1
    ensures |r.1| == 1 <==> p.onSuccess.Function?
    ensures p.onSuccess.Function? ==> r.1 == [p.onSuccess.id]
  {
    var calls := if p.onSuccess.Function? then [p.onSuccess.id] else [];
    (ClosePopup(p), calls)
  }

  /** Opening and then succeeding: the callback given to `openPopup` is
      called exactly when it is a function, and the store ends as it
      started, closed with no callback. Whatever state the popup was in
      before opening makes no difference. */
  lemma OpenThenSucceed(p: Popup, q: Popup, cb: Callback)
    ensures HandleSuccess(OpenPopup(p, cb)) == HandleSuccess(OpenPopup(q, cb))
    ensures HandleSuccess(OpenPopup(p, cb)).0 == Initial()
    ensures HandleSuccess(OpenPopup(p, cb)).1 == (if cb.Function? then [cb.id] else [])
  {
  }

  /** Closing without success never calls the callback, and a success after
      a close calls nothing. */
  lemma CloseDropsCallback(p: Popup)
    ensures HandleSuccess(ClosePopup(p)).1 == []
    ensures HandleSuccess(ClosePopup(p)).0 == ClosePopup(p)
  {
  }
}
