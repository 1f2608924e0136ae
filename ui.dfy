/**
 * The on-screen user interface (ui.c) as far as it has logic of its own: the
 * output text area kept under 1024 characters, the header text, the three
 * buttons with their labels and callback table, and the Wi-Fi label.
 *
 * An LVGL text area is its text and cursor position; the LVGL calls used on
 * it are methods with the effect LVGL documents. A widget object is an
 * identity (`ObjId`), a registered callback function is an identity
 * (`Callback`) and calling it is recorded as an `Invocation`.
 */
module Ui {
  import opened Wrappers
  import opened CFormat

  /** `MAX_TEXTAREA_LENGTH`. */
  const MaxTextareaLength: nat := 1024

  /** `LV_TEXTAREA_CURSOR_LAST`. */
  const CursorLast: nat := 0x7FFF

  // ---------------------------------------------------------------------
  // Text areas

  /**
   * The text left by `ui_txt_prune(txt, newTextLength)`: untouched while the
   * new text still fits under the limit, otherwise without its first
   * `newTextLength` characters (or empty when it has fewer).
   */
  function Pruned(text: string, newTextLength: nat): string {
    if |text| + newTextLength < MaxTextareaLength then text
    else if newTextLength < |text| then text[newTextLength..]
    else []
  }

  /** Pruning only ever removes a prefix: what is left is an unchanged suffix of the text. */
  lemma PrunedIsSuffix(text: string, newTextLength: nat)
    ensures var kept := Pruned(text, newTextLength);
      && |kept| <= |text|
      && kept == text[|text| - |kept|..]
      && (|text| + newTextLength < MaxTextareaLength ==> kept == text)
      && (|text| + newTextLength >= MaxTextareaLength ==>
            |kept| == if newTextLength < |text| then |text| - newTextLength else 0)
  {
  }

  /**
   * Appending a chunk shorter than the limit to a text shorter than the
   * limit, after pruning for it, gives a text still shorter than the limit
   * that ends with the whole chunk.
   */
  lemma AppendStaysUnderLimit(text: string, chunk: string)
    requires |text| < MaxTextareaLength && |chunk| < MaxTextareaLength
    ensures var r := Pruned(text, |chunk|) + chunk;
      |r| < MaxTextareaLength && r[|r| - |chunk|..] == chunk
  {
    var r := Pruned(text, |chunk|) + chunk;
    assert r[|r| - |chunk|..] == chunk;
  }

  /**
   * The text `ui_txt_set` and `ui_txt_add` write: the base text formatted
   * with the parameter when a non-NULL, non-zero-length parameter is given,
   * the base text itself, as a C string, otherwise. Either way it holds no
   * NUL, so `strlen` of it is its length.
   */
  function ChosenText(baseTxt: string, param: Option<string>, paramLen: nat): (r: string)
    ensures NulFree(r)
  {
    if param.Some? && paramLen != 0 then Format(baseTxt, [Str(param.value)]) else CString(baseTxt)
  }

  /** How the one formatted message of the application renders: the id between its markers. */
  lemma ClientIdMessage(clientId: string, paramLen: nat)
    requires paramLen != 0
    ensures ChosenText("\nAWS IoT Device Client ID:\n>> %s <<\n", Some(clientId), paramLen)
         == "\nAWS IoT Device Client ID:\n>> " + CString(clientId) + " <<\n"
  {
    var prefix := "\nAWS IoT Device Client ID:\n>> ";
    var suffix := " <<\n";
    assert "\nAWS IoT Device Client ID:\n>> %s <<\n" == prefix + Directive(Str(clientId)) + suffix;
    assert Verbatim(prefix) && Verbatim(suffix);
    FormatOne(prefix, suffix, Str(clientId));
  }

  /**
   * The stack buffer `ui_txt_set` and `ui_txt_add` format into holds
   * `strlen(baseTxt) + paramLen` characters. For a base text with one `%s`
   * and a parameter no longer than `paramLen`, the formatted text and its
   * terminating NUL fit: the two characters of `%s` make room for the NUL.
   */
  lemma FormattedFitsBuffer(prefix: string, suffix: string, param: string, paramLen: nat)
    requires Verbatim(prefix) && Verbatim(suffix)
    requires CStrLen(param) <= paramLen && paramLen != 0
    ensures var baseTxt := prefix + Directive(Str(param)) + suffix;
      |ChosenText(baseTxt, Some(param), paramLen)| + 1 < CStrLen(baseTxt) + paramLen
  {
    var baseTxt := prefix + Directive(Str(param)) + suffix;
    FormatOne(prefix, suffix, Str(param));
    assert NulFree(Directive(Str(param)));
    NulFreeConcat(prefix, Directive(Str(param)));
    NulFreeConcat(prefix + Directive(Str(param)), suffix);
    NulFreeStrLen(baseTxt);
  }

  /**
   * Without a parameter the base text is written verbatim, even if it holds
   * a `%`, up to its first NUL.
   */
  lemma ChosenTextVerbatim(baseTxt: string, param: Option<string>, paramLen: nat)
    requires param.None? || paramLen == 0
    ensures var r := ChosenText(baseTxt, param, paramLen);
      && |r| == CStrLen(baseTxt) && r == baseTxt[..|r|]
      && (NulFree(baseTxt) ==> r == baseTxt)
  {
  }

  class TextArea {
    var text: string
    var cursor: nat

    /** The cursor is inside the text, and the text is a C string: `strlen` sees all of it. */
    ghost predicate Valid()
      reads this
    {
      cursor <= |text| && NulFree(text)
    }

    /** A text area as `ui_init` leaves it: empty. */
    constructor ()
      ensures Valid() && text == [] && cursor == 0
    {
      text := [];
      cursor := 0;
    }

    /** `lv_textarea_set_text`: replaces the text by the C string `s`; the cursor goes to the end. */
    method SetText(s: string)
      modifies this
      ensures Valid() && text == CString(s) && cursor == CStrLen(s)
    {
      text := CString(s);
      cursor := |text|;
    }

    /** `lv_textarea_add_text`: inserts the C string `s` at the cursor and moves the cursor past it. */
    method AddText(s: string)
      requires Valid()
      modifies this
      ensures Valid()
      ensures text == old(text[..cursor]) + CString(s) + old(text[cursor..])
      ensures cursor == old(cursor) + CStrLen(s)
    {
      var c := CString(s);
      NulFreeConcat(text[..cursor], c);
      NulFreeConcat(text[..cursor] + c, text[cursor..]);
      text := text[..cursor] + c + text[cursor..];
      cursor := cursor + |c|;
    }

    /** `lv_textarea_set_cursor_pos`: positions past the end and `LV_TEXTAREA_CURSOR_LAST` mean the end. */
    method SetCursorPos(pos: nat)
      requires Valid()
      modifies this
      ensures Valid() && text == old(text)
      ensures cursor == if pos == CursorLast || pos > |text| then |text| else pos
    {
      cursor := if pos == CursorLast || pos > |text| then |text| else pos;
    }

    /** `lv_textarea_del_char_forward`: deletes the character after the cursor, if any. */
    method DelCharForward()
      requires Valid()
      modifies this
      ensures Valid() && cursor == old(cursor)
      ensures text == if old(cursor) < |old(text)| then old(text[..cursor]) + old(text[cursor + 1..]) else old(text)
    {
      if cursor < |text| {
        NulFreeConcat(text[..cursor], text[cursor + 1..]);
        text := text[..cursor] + text[cursor + 1..];
      }
    }

    /**
     * `ui_txt_prune`: when the text and `newTextLength` more characters
     * would reach the limit, delete `newTextLength` characters from the
     * front, one at a time, and put the cursor at the end.
     */
    method Prune(newTextLength: nat)
      requires Valid()
      modifies this
      ensures Valid()
      ensures text == Pruned(old(text), newTextLength)
      ensures cursor == if |old(text)| + newTextLength < MaxTextareaLength then old(cursor) else |text|
    {
      var currentTextLen := CStrLen(text);
      NulFreeStrLen(text);
      if currentTextLen + newTextLength >= MaxTextareaLength {
        for i := 0 to newTextLength
          invariant Valid()
          invariant text == old(text)[if i < |old(text)| then i else |old(text)|..]
        {
          SetCursorPos(0);
          DelCharForward();
        }
        SetCursorPos(CursorLast);
      }
    }

    /** `ui_txt_set`: a NULL base text is ignored; otherwise the chosen text replaces the whole text. */
    method SetFormatted(baseTxt: Option<string>, param: Option<string>, paramLen: nat)
      requires Valid()
      modifies this
      ensures Valid()
      ensures baseTxt.None? ==> text == old(text) && cursor == old(cursor)
      ensures baseTxt.Some? ==>
                text == ChosenText(baseTxt.value, param, paramLen) && cursor == |text|
    {
      if baseTxt.Some? {
        if param.Some? && paramLen != 0 {
          var buf := Format(baseTxt.value, [Str(param.value)]);
          SetText(buf);
        } else {
          SetText(baseTxt.value);
        }
      }
    }

    /**
     * `ui_txt_add`: a NULL base text is ignored; otherwise the text is
     * pruned for the chosen text, which is then inserted at the cursor.
     * With the cursor at the end, as every text-area operation here leaves
     * it, the chosen text is appended.
     */
    method AddFormatted(baseTxt: Option<string>, param: Option<string>, paramLen: nat)
      requires Valid()
      modifies this
      ensures Valid()
      ensures baseTxt.None? ==> text == old(text) && cursor == old(cursor)
      ensures baseTxt.Some? ==>
                var chunk := ChosenText(baseTxt.value, param, paramLen);
                var kept := Pruned(old(text), |chunk|);
                var at := if |old(text)| + |chunk| < MaxTextareaLength then old(cursor) else |kept|;
                at <= |kept| && text == kept[..at] + chunk + kept[at..] && cursor == at + |chunk|
      ensures baseTxt.Some? && old(cursor) == |old(text)| ==>
                text == Pruned(old(text), |ChosenText(baseTxt.value, param, paramLen)|)
                        + ChosenText(baseTxt.value, param, paramLen)
                && cursor == |text|
    {
      if baseTxt.Some? {
        ghost var chunk := ChosenText(baseTxt.value, param, paramLen);
        ghost var kept, at;
        if param.Some? && paramLen != 0 {
          var buf := Format(baseTxt.value, [Str(param.value)]);
          NulFreeStrLen(buf);
          Prune(CStrLen(buf));
          kept, at := text, cursor;
          AddText(buf);
        } else {
          Prune(CStrLen(baseTxt.value));
          kept, at := text, cursor;
          AddText(baseTxt.value);
        }
        assert text == kept[..at] + chunk + kept[at..];
        assert at == |kept| ==> text == kept + chunk by {
          assert kept[..|kept|] == kept && kept[|kept|..] == [];
        }
      }
    }
  }

  // ---------------------------------------------------------------------
  // Labels

  class Label {
    var text: string

    /** A label created with the C string `text`. */
    constructor (text: string)
      ensures this.text == CString(text)
    {
      this.text := CString(text);
    }

    /** `lv_label_set_text`: the label shows the C string `s`. */
    method SetText(s: string)
      modifies this
      ensures text == CString(s)
    {
      text := CString(s);
    }
  }

  /** `LV_SYMBOL_WIFI`, LVGL's Wi-Fi glyph (U+F1EB). */
  const WifiSymbol: string := "\U{F1EB}"

  const WifiConnectedFormat: string := "#0000ff %s #"

  /**
   * The Wi-Fi label text: connected shows the glyph wrapped in LVGL's
   * recolour command for blue, disconnected shows the bare glyph.
   */
  function WifiLabelText(connected: bool): (s: string)
    ensures connected ==> s == "#0000ff " + WifiSymbol + " #"
    ensures !connected ==> s == WifiSymbol
  {
    if connected then
      assert WifiConnectedFormat == "#0000ff " + Directive(Str(WifiSymbol)) + " #";
      assert Verbatim("#0000ff ") && Verbatim(" #");
      assert NulFree(WifiSymbol);
      FormatOne("#0000ff ", " #", Str(WifiSymbol));
      Format(WifiConnectedFormat, [Str(WifiSymbol)])
    else
      WifiSymbol
  }

  /** The glyph always shows; only the connected label carries a recolour command. */
  lemma WifiLabelShowsGlyph(connected: bool)
    ensures var s := WifiLabelText(connected);
      && (connected <==> s[0] == '#')
      && (connected ==> s[8..9] == WifiSymbol)
      && (!connected ==> s == WifiSymbol)
  {
  }

  /** `ui_wifi_label_update`. */
  method WifiLabelUpdate(wifiLabel: Label, state: bool)
    modifies wifiLabel
    ensures wifiLabel.text == WifiLabelText(state)
  {
    if state {
      var buffer := Format(WifiConnectedFormat, [Str(WifiSymbol)]);
      wifiLabel.SetText(buffer);
    } else {
      wifiLabel.SetText(WifiSymbol);
    }
  }

  // ---------------------------------------------------------------------
  // Buttons

  datatype UiButton = BtnLeft | BtnCenter | BtnRight {
    function Index(): (i: nat)
      ensures i < BtnCount
    {
      match this
      case BtnLeft => 0
      case BtnCenter => 1
      case BtnRight => 2
    }
  }

  /** `BTN_COUNT`. */
  const BtnCount: nat := 3

  /** Number of LVGL event kinds named in `LV_EVENT_NAMES`. */
  const LvEventCount: nat := 22

  datatype BtnState = Released | Disabled

  /** A button's label text and the state set with it. */
  datatype ButtonLabel = ButtonLabel(text: string, state: BtnState)

  type ObjId = nat
  type Callback = nat

  /** A call `callback(btn, event)` made through the callback table. */
  datatype Invocation = Invocation(callback: Callback, btn: nat, event: nat)

  /**
   * `ui_btn_txt_set`'s choice of the label's text and state: a text is shown
   * with the label released; a NULL text clears the label and disables it.
   * The state is set on the label object, not on the button itself. The
   * text is the C string `txt`.
   */
  function LabelFor(txt: Option<string>): (b: ButtonLabel)
    ensures b.state == Disabled <==> txt.None?
    ensures b.text == CString(txt.GetOr(""))
    ensures NulFree(b.text) && (txt.Some? && NulFree(txt.value) ==> b.text == txt.value)
  {
    match txt
    case Some(t) => ButtonLabel(CString(t), Released)
    case None => ButtonLabel("", Disabled)
  }

  /**
   * The calls `btn_cb(obj, event)` makes while scanning the first `n`
   * buttons: one for every button whose object is `obj` and whose table
   * entry is set, with that button's index.
   */
  function Dispatched(objs: seq<ObjId>, cbs: seq<Option<Callback>>, obj: ObjId, event: nat, n: nat): seq<Invocation>
    requires n <= |objs| && n <= |cbs|
  {
    if n == 0 then []
    else
      Dispatched(objs, cbs, obj, event, n - 1)
        + (if objs[n - 1] == obj && cbs[n - 1].Some? then [Invocation(cbs[n - 1].value, n - 1, event)] else [])
  }

  /** An object that is none of the buttons triggers no call. */
  lemma {:induction false} DispatchIgnoresOtherObjects(objs: seq<ObjId>, cbs: seq<Option<Callback>>, obj: ObjId, event: nat, n: nat)
    requires n <= |objs| && n <= |cbs|
    requires forall i :: 0 <= i < n ==> objs[i] != obj
    ensures Dispatched(objs, cbs, obj, event, n) == []
  {
    if n > 0 {
      DispatchIgnoresOtherObjects(objs, cbs, obj, event, n - 1);
    }
  }

  /**
   * With distinct button objects, an event on button `k` calls exactly that
   * button's registered callback, once, with index `k`, and calls nothing
   * when its entry is NULL.
   */
  lemma {:induction false} DispatchReachesOwner(objs: seq<ObjId>, cbs: seq<Option<Callback>>, event: nat, k: nat, n: nat)
    requires k < n <= |objs| && n <= |cbs|
    requires forall i, j :: 0 <= i < j < n ==> objs[i] != objs[j]
    ensures Dispatched(objs, cbs, objs[k], event, n)
         == if cbs[k].Some? then [Invocation(cbs[k].value, k, event)] else []
  {
    if k == n - 1 {
      DispatchIgnoresOtherObjects(objs, cbs, objs[k], event, n - 1);
    } else {
      DispatchReachesOwner(objs, cbs, event, k, n - 1);
    }
  }

  /** The three buttons: their objects, their labels and the callback table. */
  class Buttons {
    /** `obj_btn`. */
    const objs: array<ObjId>
    /** `obj_btn_txt`, as the text and state set on each. */
    const labels: array<ButtonLabel>
    /** `obj_btn_cb`. */
    const callbacks: array<Option<Callback>>
    /** The callback calls made so far. */
    var invoked: seq<Invocation>

    ghost predicate Valid()
      reads this, objs
    {
      && objs.Length == BtnCount && labels.Length == BtnCount && callbacks.Length == BtnCount
      && forall i, j :: 0 <= i < j < BtnCount ==> objs[i] != objs[j]
    }

    /** The buttons as `ui_init` leaves them: empty enabled labels, no callbacks. */
    constructor (left: ObjId, center: ObjId, right: ObjId)
      requires left != center && left != right && center != right
      ensures Valid() && fresh(objs) && fresh(labels) && fresh(callbacks)
      ensures objs[..] == [left, center, right]
      ensures forall i :: 0 <= i < BtnCount ==> labels[i] == ButtonLabel("", Released) && callbacks[i] == None
      ensures invoked == []
    {
      objs := new ObjId[] [left, center, right];
      labels := new ButtonLabel[BtnCount](_ => ButtonLabel("", Released));
      callbacks := new Option<Callback>[BtnCount](_ => None);
      invoked := [];
    }

    /** `ui_btn_event_cb_set`: overwrites the one entry of `btn`. */
    method SetCallback(btn: UiButton, func: Option<Callback>)
      requires Valid()
      modifies callbacks
      ensures Valid()
      ensures callbacks[btn.Index()] == func
      ensures forall i :: 0 <= i < BtnCount && i != btn.Index() ==> callbacks[i] == old(callbacks[i])
    {
      callbacks[btn.Index()] := func;
    }

    /** `ui_btn_txt_set`: sets the label and state of `btn` only. */
    method SetLabel(btn: UiButton, txt: Option<string>)
      requires Valid()
      modifies labels
      ensures Valid()
      ensures labels[btn.Index()] == LabelFor(txt)
      ensures forall i :: 0 <= i < BtnCount && i != btn.Index() ==> labels[i] == old(labels[i])
    {
      if txt.Some? {
        labels[btn.Index()] := ButtonLabel(CString(txt.value), Released);
      } else {
        labels[btn.Index()] := ButtonLabel("", Disabled);
      }
    }

    /**
     * `btn_cb`: calls the registered callback of every button whose object is
     * `obj`. An event on button `k` calls `k`'s callback once, with index `k`,
     * or nothing when its entry is NULL; an event on another object calls
     * nothing.
     */
    method Dispatch(obj: ObjId, event: nat)
      requires Valid()
      requires event < LvEventCount
      modifies this
      ensures invoked == old(invoked) + Dispatched(objs[..], callbacks[..], obj, event, BtnCount)
      ensures forall k :: 0 <= k < BtnCount && objs[k] == obj ==>
                invoked == old(invoked) + (if callbacks[k].Some? then [Invocation(callbacks[k].value, k, event)] else [])
      ensures (forall k :: 0 <= k < BtnCount ==> objs[k] != obj) ==> invoked == old(invoked)
    {
      for i := 0 to BtnCount
        invariant invoked == old(invoked) + Dispatched(objs[..], callbacks[..], obj, event, i)
      {
        if objs[i] == obj {
          if callbacks[i].Some? {
            invoked := invoked + [Invocation(callbacks[i].value, i, event)];
          }
        }
      }
      forall k | 0 <= k < BtnCount && objs[k] == obj
        ensures invoked == old(invoked) + (if callbacks[k].Some? then [Invocation(callbacks[k].value, k, event)] else [])
      {
        DispatchReachesOwner(objs[..], callbacks[..], event, k, BtnCount);
      }
      if forall k :: 0 <= k < BtnCount ==> objs[k] != obj {
        DispatchIgnoresOtherObjects(objs[..], callbacks[..], obj, event, BtnCount);
      }
    }
  }
}
