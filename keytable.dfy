/**
 The keyboard-shortcut table of a dialog: a map from key code to the index of
 the button that code triggers, filled once at construction by a nested loop
 over the buttons and their `keyCodes`. A code listed by several buttons ends
 up with the last of them.
 */
module Shortcuts {
  import opened ModalOptions

  /** The codes a button declares; a button whose `keyCodes` is falsy declares none. */
  function Codes(b: Button): seq<int> {
    match b.keyCodes
    case None => []
    case Some(codes) => codes
  }

  /** Button `i` lists code `k`. */
  ghost predicate Declares(buttons: seq<Button>, i: int, k: int) {
    0 <= i < |buttons| && k in Codes(buttons[i])
  }

  /** Button `i` lists code `k` and no later button does. */
  ghost predicate LastDeclarer(buttons: seq<Button>, i: int, k: int) {
    Declares(buttons, i, k) && forall j :: i < j < |buttons| ==> k !in Codes(buttons[j])
  }

  /** The table after the inner loop has written index `i` under every code of `codes`. */
  function WriteCodes(keys: map<int, nat>, codes: seq<int>, i: nat): map<int, nat> {
    keys + map k | k in codes :: i
  }

  /** After the inner loop a listed code holds `i`, and every other entry is as before. */
  lemma WriteCodesAt(keys: map<int, nat>, codes: seq<int>, i: nat, k: int)
    ensures k in WriteCodes(keys, codes, i) <==> k in keys || k in codes
    ensures k in codes ==> WriteCodes(keys, codes, i)[k] == i
    ensures k in keys && k !in codes ==> WriteCodes(keys, codes, i)[k] == keys[k]
  {
  }

  /**
   The table after the outer loop has handled every button of `buttons`, in
   order. Every entry is the index of a button.
   */
  function KeyTable(buttons: seq<Button>): (keys: map<int, nat>)
    ensures forall k :: k in keys ==> keys[k] < |buttons|
  {
    if buttons == [] then map[]
    else
      var n := |buttons| - 1;
      WriteCodes(KeyTable(buttons[..n]), Codes(buttons[n]), n)
  }

  /** A code is in the table exactly when some button lists it. */
  lemma {:induction false} KeyTableDomain(buttons: seq<Button>, k: int)
    ensures k in KeyTable(buttons) <==> exists i :: Declares(buttons, i, k)
  {
    if buttons != [] {
      var n := |buttons| - 1;
      var prefix := buttons[..n];
      KeyTableDomain(prefix, k);
      WriteCodesAt(KeyTable(prefix), Codes(buttons[n]), n, k);
      if k in KeyTable(buttons) {
        if k in Codes(buttons[n]) {
          assert Declares(buttons, n, k);
        } else {
          var i :| Declares(prefix, i, k);
          assert Declares(buttons, i, k);
        }
      } else {
        forall i | 0 <= i < |buttons| ensures !Declares(buttons, i, k) {
          if i < n {
            assert !Declares(prefix, i, k);
            assert buttons[i] == prefix[i];
          }
        }
      }
    }
  }

  /** An entry of the table names the last button that lists its code. */
  lemma {:induction false} KeyTableEntryIsLast(buttons: seq<Button>, k: int)
    requires k in KeyTable(buttons)
    ensures LastDeclarer(buttons, KeyTable(buttons)[k], k)
  {
    var n := |buttons| - 1;
    var prefix := buttons[..n];
    WriteCodesAt(KeyTable(prefix), Codes(buttons[n]), n, k);
    if k !in Codes(buttons[n]) {
      KeyTableEntryIsLast(prefix, k);
      var i := KeyTable(buttons)[k];
      assert buttons[i] == prefix[i];
      forall j | i < j < |buttons| ensures k !in Codes(buttons[j]) {
        if j < n {
          assert buttons[j] == prefix[j];
        }
      }
    }
  }

  /** The last button that lists a code is the one the table sends it to. */
  lemma {:induction false} LastDeclarerInTable(buttons: seq<Button>, k: int, i: int)
    requires LastDeclarer(buttons, i, k)
    ensures k in KeyTable(buttons) && KeyTable(buttons)[k] == i
  {
    var n := |buttons| - 1;
    var prefix := buttons[..n];
    WriteCodesAt(KeyTable(prefix), Codes(buttons[n]), n, k);
    if i < n {
      assert k !in Codes(buttons[n]);
      assert buttons[i] == prefix[i];
      forall j | i < j < n ensures k !in Codes(prefix[j]) {
        assert buttons[j] == prefix[j];
      }
      LastDeclarerInTable(prefix, k, i);
    }
  }

  /**
   The table sends code `k` to button `i` exactly when button `i` lists `k`
   and no later button does: the last write wins.
   */
  lemma {:induction false} KeyTableLastWins(buttons: seq<Button>, k: int, i: int)
    ensures (k in KeyTable(buttons) && KeyTable(buttons)[k] == i) <==> LastDeclarer(buttons, i, k)
  {
    if k in KeyTable(buttons) && KeyTable(buttons)[k] == i {
      KeyTableEntryIsLast(buttons, k);
    }
    if LastDeclarer(buttons, i, k) {
      LastDeclarerInTable(buttons, k, i);
    }
  }

  /** A button without codes adds nothing: the table is that of the other buttons. */
  lemma {:induction false} KeyTableSkipsUncoded(buttons: seq<Button>, b: Button)
    requires Codes(b) == []
    ensures KeyTable(buttons + [b]) == KeyTable(buttons)
  {
    assert (buttons + [b])[..|buttons|] == buttons;
  }

  /** With the default buttons, Escape (27) is the only shortcut, and it triggers Cancel. */
  lemma DefaultKeyTable()
    ensures KeyTable(DefaultButtons) == map[27 := 0]
  {
    var first := KeyTable(DefaultButtons[..1]);
    assert DefaultButtons[..1][..0] == [];
    assert first == map[27 := 0];
    assert KeyTable(DefaultButtons) == WriteCodes(first, [], 1);
  }

  /**
   The lookup a key-up performs: the event of the button the table sends
   `code` to, or None when no button lists the code.
   */
  function ShortcutEvent(buttons: seq<Button>, code: int): (r: Option<string>)
    ensures r.None? <==> forall i :: !Declares(buttons, i, code)
    ensures r.Some? ==> exists i :: LastDeclarer(buttons, i, code) && r.value == buttons[i].event
  {
    var keys := KeyTable(buttons);
    KeyTableDomain(buttons, code);
    if code in keys then
      KeyTableEntryIsLast(buttons, code);
      Some(buttons[keys[code]].event)
    else
      None
  }

  /** With the default buttons, key-up 27 emits `cancel` and every other code emits nothing. */
  lemma DefaultShortcuts(code: int)
    ensures ShortcutEvent(DefaultButtons, code) == if code == 27 then Some("cancel") else None
  {
    DefaultKeyTable();
  }

  /** One more write of the inner loop. */
  lemma WriteCodesSnoc(keys: map<int, nat>, codes: seq<int>, code: int, i: nat)
    ensures WriteCodes(keys, codes + [code], i) == WriteCodes(keys, codes, i)[code := i]
  {
    var left, right := WriteCodes(keys, codes + [code], i), WriteCodes(keys, codes, i)[code := i];
    forall k ensures k in left <==> k in right {
      WriteCodesAt(keys, codes + [code], i, k);
      WriteCodesAt(keys, codes, i, k);
    }
    forall k | k in left ensures left[k] == right[k] {
      WriteCodesAt(keys, codes + [code], i, k);
      WriteCodesAt(keys, codes, i, k);
    }
  }

  /** The code of `modal.js` that fills the table, proved to compute KeyTable. */
  method BuildKeyTable(buttons: seq<Button>) returns (keys: map<int, nat>)
    ensures keys == KeyTable(buttons)
  {
    keys := map[];
    var i := 0;
    while i < |buttons|
      invariant 0 <= i <= |buttons|
      invariant keys == KeyTable(buttons[..i])
    {
      var button := buttons[i];
      ghost var before := keys;
      if button.keyCodes.Some? {
        var codes := button.keyCodes.value;
        var n := 0;
        while n < |codes|
          invariant 0 <= n <= |codes|
          invariant keys == WriteCodes(before, codes[..n], i)
        {
          assert codes[..n + 1] == codes[..n] + [codes[n]];
          WriteCodesSnoc(before, codes[..n], codes[n], i);
          keys := keys[codes[n] := i];
          n := n + 1;
        }
        assert codes[..n] == codes;
      }
      assert buttons[..i + 1][..i] == buttons[..i];
      assert buttons[..i + 1][i] == button;
      if button.keyCodes.None? {
        assert WriteCodes(before, [], i) == before;
      }
      i := i + 1;
    }
    assert buttons[..i] == buttons;
  }
}
