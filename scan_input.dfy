/**
 * What the two station screens (client/src/components/station/Retrieve.jsx
 * and Store.jsx) share: the text buffer a hidden scan input assembles from
 * single `keydown` events, the dialog they raise, and the way the reply of
 * a request reaches a handler.
 */
module ScanInput {

  /** How an awaited request ends for the handler: with the reply data, with
      a rejected promise (caught by the handler), or never (the server sends
      nothing, so the rest of the handler does not run). */
  datatype Reply<T> = Answered(value: T) | Failed | Pending

  /** The dialog or snackbar the screen shows. */
  datatype Notice = Quiet | Error(content: string) | Success(content: string)

  /** Keys the scan handlers skip without touching the buffer. */
  predicate Ignored(key: string)
  {
    key == "Shift" || key == "Tab" || key == "CapsLock" || key == "Alt"
  }

  /** One keystroke other than Enter into a scan buffer: Backspace is
      `slice(0, -1)`, an ignored key does nothing, any other key's name is
      appended. */
  function Edit(buffer: string, key: string): string
    requires key != "Enter"
  {
    if key == "Backspace" then (if buffer == "" then "" else buffer[..|buffer| - 1])
    else if Ignored(key) then buffer
    else buffer + key
  }

  /** Backspace drops exactly the last character, and keeps an empty
      buffer empty. */
  lemma EditRules(buffer: string, key: string)
    requires key != "Enter"
    ensures key == "Backspace" ==> Edit(buffer, key) + (if buffer == "" then "" else [buffer[|buffer| - 1]]) == buffer
  {
    if key == "Backspace" && buffer != "" {
      assert buffer[..|buffer| - 1] + [buffer[|buffer| - 1]] == buffer;
    }
  }

  /** A run of keystrokes, none of them Enter, one after the other. */
  function Typed(buffer: string, keys: seq<string>): string
    requires forall i :: 0 <= i < |keys| ==> keys[i] != "Enter"
  {
    if keys == [] then buffer
    else Edit(Typed(buffer, keys[..|keys| - 1]), keys[|keys| - 1])
  }

  /** The one-character keys a scanner sends for a text. */
  function KeysOf(s: string): (keys: seq<string>)
    ensures |keys| == |s|
    ensures forall i :: 0 <= i < |s| ==> keys[i] == [s[i]]
  {
    if s == [] then [] else KeysOf(s[..|s| - 1]) + [[s[|s| - 1]]]
  }

  /** `n` presses of Backspace. */
  function Backspaces(n: nat): (keys: seq<string>)
    ensures |keys| == n
    ensures forall i :: 0 <= i < n ==> keys[i] == "Backspace"
  {
    if n == 0 then [] else Backspaces(n - 1) + ["Backspace"]
  }

  /** Typing two runs is typing the first and then the second. */
  lemma {:induction false} TypedAppend(buffer: string, a: seq<string>, b: seq<string>)
    requires forall i :: 0 <= i < |a| ==> a[i] != "Enter"
    requires forall i :: 0 <= i < |b| ==> b[i] != "Enter"
    ensures forall i :: 0 <= i < |a + b| ==> (a + b)[i] != "Enter"
    ensures Typed(buffer, a + b) == Typed(Typed(buffer, a), b)
  {
    assert forall i :: 0 <= i < |a + b| ==> (a + b)[i] == if i < |a| then a[i] else b[i - |a|];
    if b == [] {
      assert a + b == a;
    } else {
      var p := b[..|b| - 1];
      assert (a + b)[..|a + b| - 1] == a + p;
      TypedAppend(buffer, a, p);
    }
  }

  /** What a scanner types ends up, character for character, after what
      the buffer already held. */
  lemma {:induction false} TypingAppends(buffer: string, s: string)
    ensures forall i :: 0 <= i < |KeysOf(s)| ==> KeysOf(s)[i] != "Enter"
    ensures Typed(buffer, KeysOf(s)) == buffer + s
  {
    if s != [] {
      var p := s[..|s| - 1];
      TypingAppends(buffer, p);
      var keys := KeysOf(s);
      assert keys[..|keys| - 1] == KeysOf(p);
      assert [s[|s| - 1]] != "Backspace" && !Ignored([s[|s| - 1]]);
      assert buffer + p + [s[|s| - 1]] == buffer + s;
    }
  }

  /** Each Backspace drops one character from the end, and an empty buffer
      stays empty. */
  lemma {:induction false} BackspacesErase(buffer: string, keys: seq<string>)
    requires forall i :: 0 <= i < |keys| ==> keys[i] == "Backspace"
    ensures forall i :: 0 <= i < |keys| ==> keys[i] != "Enter"
    ensures Typed(buffer, keys) == if |keys| <= |buffer| then buffer[..|buffer| - |keys|] else ""
  {
    if keys != [] {
      var p := keys[..|keys| - 1];
      BackspacesErase(buffer, p);
      EraseOne(buffer, |keys|);
    }
  }

  /** One more Backspace on what `n - 1` of them left. */
  lemma EraseOne(buffer: string, n: nat)
    requires n > 0
    ensures Edit(if n - 1 <= |buffer| then buffer[..|buffer| - (n - 1)] else "", "Backspace")
            == if n <= |buffer| then buffer[..|buffer| - n] else ""
  {
    if n <= |buffer| {
      var t := buffer[..|buffer| - (n - 1)];
      assert t[..|t| - 1] == buffer[..|buffer| - n];
    }
  }

  /** Backspacing over a scanned text restores the buffer as it was. */
  lemma TypeThenErase(buffer: string, s: string)
    ensures forall i :: 0 <= i < |KeysOf(s) + Backspaces(|s|)| ==> (KeysOf(s) + Backspaces(|s|))[i] != "Enter"
    ensures Typed(buffer, KeysOf(s) + Backspaces(|s|)) == buffer
  {
    TypingAppends(buffer, s);
    TypedAppend(buffer, KeysOf(s), Backspaces(|s|));
    BackspacesErase(buffer + s, Backspaces(|s|));
    assert (buffer + s)[..|buffer + s| - |s|] == buffer;
  }

  /** Modifier keys alone never change the buffer. */
  lemma {:induction false} IgnoredKeysKeep(buffer: string, keys: seq<string>)
    requires forall i :: 0 <= i < |keys| ==> Ignored(keys[i])
    ensures forall i :: 0 <= i < |keys| ==> keys[i] != "Enter"
    ensures Typed(buffer, keys) == buffer
  {
    if keys != [] {
      IgnoredKeysKeep(buffer, keys[..|keys| - 1]);
    }
  }
}
