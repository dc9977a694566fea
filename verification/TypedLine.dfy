/** The line being typed: what the keys pressed so far make of it, and how the screen shows it. */
module TypedLine {
  import opened Machine
  import opened Console

  const KEY_F: Byte := 102
  const BACKSPACE: Byte := 8

  /** The line in progress after a key: a newline, a full row, a backspace (it clears the screen) and `f` end it. */
  function LineAfter(line: seq<Byte>, c: Byte): seq<Byte> {
    if c == 0 then line
    else if c == NEWLINE || c == BACKSPACE || c == KEY_F || |line| + 1 == COLUMNS then []
    else line + [c]
  }

  function LineOf(keys: seq<Byte>): seq<Byte>
    decreases |keys|
  {
    if keys == [] then [] else LineAfter(LineOf(keys[..|keys| - 1]), keys[|keys| - 1])
  }

  /** The line is what was typed last: a suffix of the keys, less than a row long, of printing characters only. */
  lemma {:induction false} LineIsSuffix(keys: seq<Byte>)
    requires 0 !in keys
    ensures var n := |LineOf(keys)|; n <= |keys| && n < COLUMNS && LineOf(keys) == keys[|keys| - n..]
    ensures forall b :: b in LineOf(keys) ==> b !in {0, NEWLINE, BACKSPACE, KEY_F}
    decreases |keys|
  {
    if keys != [] {
      var m := |keys| - 1;
      LineIsSuffix(keys[..m]);
      var n := |LineOf(keys[..m])|;
      assert keys[..m][m - n..] + [keys[m]] == keys[m - n..];
    }
  }

  /** The row under the cursor shows the line. */
  ghost predicate RowShows(t: Term, line: seq<Byte>) {
    t.pos % COLUMNS == |line| && |line| <= t.pos && Shows(t, t.pos - |line|, line)
  }

  lemma RowAfterPut(t: Term, line: seq<Byte>, c: Byte)
    requires Proper(t) && RowShows(t, line) && c !in {0, BACKSPACE, KEY_F}
    ensures RowShows(Put(t, c), LineAfter(line, c))
  {
    var u := Put(t, c);
    if c == NEWLINE {
      assert u.pos % COLUMNS == 0;
    } else if |line| + 1 == COLUMNS {
      assert (t.pos + 1) % COLUMNS == 0;
    } else {
      assert t.pos + 1 < CELLS;
      assert (t.pos + 1) % COLUMNS == |line| + 1;
    }
  }

  lemma EmptyRow(t: Term)
    ensures RowShows(Put(t, NEWLINE), [])
  {
  }
}
