/**
 * The prompt line editor of fm.c (struct edit, the EDIT_* macros,
 * start_line_edit, get_line_edit): a gap buffer of wide characters with
 * the text before the cursor in buffer[0, left) and the text after it in
 * buffer(right, BUFLEN-1].
 *
 * `Line` is the plain-text reference: the text with a cursor position.
 * Every operation of the gap buffer is proved against it through `View`.
 */
module LineEdit {
  /** PATH_MAX on Linux. */
  const BUFLEN: int := 4096
  /** The longest text the buffer holds: the gap is empty at this length. */
  const CAP: int := BUFLEN - 1

  /** The special keys get_line_edit distinguishes (KEY_CODE_YES results). */
  datatype KeyCode = KeyEnter | KeyLeft | KeyRight | KeyUp | KeyDown | KeyBackspace | KeyDc | OtherCode

  /** One key read from the terminal: a function key or a wide character. */
  datatype Key = Code(code: KeyCode) | Wide(ch: char)

  /** enum editstate. */
  datatype EditState = Continue | Confirm | Cancel

  /** The edited text with the cursor between text[..cursor] and text[cursor..]. */
  datatype Line = Line(text: string, cursor: int)

  predicate LineOk(l: Line)
  {
    0 <= l.cursor <= |l.text| <= CAP
  }

  /** Cursor one to the left, if there is a character before it. */
  function LineLeft(l: Line): (r: Line)
    requires LineOk(l)
    ensures LineOk(r) && r.text == l.text
  {
    if l.cursor > 0 then Line(l.text, l.cursor - 1) else l
  }

  /** Cursor one to the right, if there is a character after it. */
  function LineRight(l: Line): (r: Line)
    requires LineOk(l)
    ensures LineOk(r) && r.text == l.text
  {
    if l.cursor < |l.text| then Line(l.text, l.cursor + 1) else l
  }

  /** Insert `c` before the cursor unless the buffer is full. */
  function LineInsert(l: Line, c: char): (r: Line)
    requires LineOk(l)
    ensures LineOk(r)
  {
    if |l.text| < CAP then Line(l.text[..l.cursor] + [c] + l.text[l.cursor..], l.cursor + 1) else l
  }

  /** Remove the character before the cursor, if any. */
  function LineBackspace(l: Line): (r: Line)
    requires LineOk(l)
    ensures LineOk(r)
  {
    if l.cursor > 0 then Line(l.text[..l.cursor - 1] + l.text[l.cursor..], l.cursor - 1) else l
  }

  /** Remove the character after the cursor, if any. */
  function LineDelete(l: Line): (r: Line)
    requires LineOk(l)
    ensures LineOk(r)
  {
    if l.cursor < |l.text| then Line(l.text[..l.cursor] + l.text[l.cursor + 1..], l.cursor) else l
  }

  /**
   * The effect of one key on the line, in get_line_edit's order of tests.
   * `eraser` and `killer` are the terminal's erase and kill characters and
   * `printable` is iswprint.
   */
  function Step(l: Line, k: Key, eraser: char, killer: char, printable: char -> bool): (r: (EditState, Line))
    requires LineOk(l)
    ensures LineOk(r.1)
    ensures r.0 == Confirm <==> k == Code(KeyEnter) || k == Wide('\r') || k == Wide('\n')
    ensures r.0 == Cancel <==> k == Wide('\t')
    ensures r.0 != Continue ==> r.1 == l
    ensures k.Code? && k.code in {KeyLeft, KeyRight, KeyUp, KeyDown} ==> r.1.text == l.text
    ensures |r.1.text| <= |l.text| + 1
  {
    match k
    case Code(c) =>
      (match c
       case KeyEnter => (Confirm, l)
       case KeyLeft => (Continue, LineLeft(l))
       case KeyRight => (Continue, LineRight(l))
       case KeyUp => (Continue, Line(l.text, 0))
       case KeyDown => (Continue, Line(l.text, |l.text|))
       case KeyBackspace => (Continue, LineBackspace(l))
       case KeyDc => (Continue, LineDelete(l))
       case OtherCode => (Continue, l))
    case Wide(ch) =>
      if ch == '\r' || ch == '\n' then (Confirm, l)
      else if ch == '\t' then (Cancel, l)
      else if ch == eraser then (Continue, LineBackspace(l))
      else if ch == killer then (Continue, Line("", 0))
      else if printable(ch) then (Continue, LineInsert(l, ch))
      else (Continue, l)
  }

  /** Feed keys to the editor until one of them ends the edit. */
  function Run(l: Line, keys: seq<Key>, eraser: char, killer: char, printable: char -> bool): (r: (EditState, Line))
    requires LineOk(l)
    decreases |keys|
    ensures LineOk(r.1)
    ensures keys == [] ==> r == (Continue, l)
  {
    if keys == [] then (Continue, l)
    else
      var (st, l') := Step(l, keys[0], eraser, killer, printable);
      if st != Continue then (st, l') else Run(l', keys[1..], eraser, killer, printable)
  }

  /** The keys that type the characters of `s`. */
  function Typed(s: string): (keys: seq<Key>)
    ensures |keys| == |s|
    ensures forall k :: 0 <= k < |s| ==> keys[k] == Wide(s[k])
  {
    if s == [] then [] else [Wide(s[0])] + Typed(s[1..])
  }

  /** A character that get_line_edit inserts when typed. */
  predicate Plain(c: char, eraser: char, killer: char, printable: char -> bool)
  {
    c != '\r' && c != '\n' && c != '\t' && c != eraser && c != killer && printable(c)
  }

  /** Every character of `s` is plain. */
  predicate AllPlain(s: string, eraser: char, killer: char, printable: char -> bool)
  {
    s == [] || (Plain(s[0], eraser, killer, printable) && AllPlain(s[1..], eraser, killer, printable))
  }

  /** Backspace undoes the insertion of a character. */
  lemma InsertThenBackspace(l: Line, c: char)
    requires LineOk(l) && |l.text| < CAP
    ensures LineBackspace(LineInsert(l, c)) == l
  {
    var t := l.text[..l.cursor] + [c] + l.text[l.cursor..];
    assert t[..l.cursor] == l.text[..l.cursor];
    assert t[l.cursor + 1..] == l.text[l.cursor..];
    assert l.text[..l.cursor] + l.text[l.cursor..] == l.text;
  }

  /** The delete key undoes a step to the left followed by an insertion at the cursor. */
  lemma InsertThenDelete(l: Line, c: char)
    requires LineOk(l) && |l.text| < CAP
    ensures LineDelete(LineLeft(LineInsert(l, c))) == l
  {
    var t := l.text[..l.cursor] + [c] + l.text[l.cursor..];
    assert t[..l.cursor] == l.text[..l.cursor];
    assert t[l.cursor + 1..] == l.text[l.cursor..];
    assert l.text[..l.cursor] + l.text[l.cursor..] == l.text;
  }

  /** Where an insertion leaves the text on either side of the cursor. */
  lemma InsertSplit(l: Line, c: char)
    requires LineOk(l) && |l.text| < CAP
    ensures LineInsert(l, c).cursor == l.cursor + 1
    ensures |LineInsert(l, c).text| == |l.text| + 1
    ensures LineInsert(l, c).text[..l.cursor + 1] == l.text[..l.cursor] + [c]
    ensures LineInsert(l, c).text[l.cursor + 1..] == l.text[l.cursor..]
  {
  }

  /** A plain character typed into the line is inserted at the cursor. */
  lemma PlainStep(l: Line, c: char, eraser: char, killer: char, printable: char -> bool)
    requires LineOk(l) && Plain(c, eraser, killer, printable)
    ensures Step(l, Wide(c), eraser, killer, printable) == (Continue, LineInsert(l, c))
  {
  }

  /** A key that does not end the edit hands the line it produced to the rest of the keys. */
  lemma RunCons(l: Line, k: Key, keys: seq<Key>, eraser: char, killer: char, printable: char -> bool)
    requires LineOk(l) && Step(l, k, eraser, killer, printable).0 == Continue
    ensures Run(l, [k] + keys, eraser, killer, printable)
         == Run(Step(l, k, eraser, killer, printable).1, keys, eraser, killer, printable)
  {
    assert ([k] + keys)[1..] == keys;
  }

  /**
   * Typing plain characters inserts them, in order, at the cursor and
   * never ends the edit, as long as they fit.
   */
  lemma {:induction false} TypingInserts(l: Line, s: string, eraser: char, killer: char, printable: char -> bool)
    requires LineOk(l) && |l.text| + |s| <= CAP
    requires AllPlain(s, eraser, killer, printable)
    ensures Run(l, Typed(s), eraser, killer, printable)
         == (Continue, Line(l.text[..l.cursor] + s + l.text[l.cursor..], l.cursor + |s|))
    decreases |s|
  {
    var pre, post := l.text[..l.cursor], l.text[l.cursor..];
    if s == [] {
      assert pre + s + post == l.text;
    } else {
      var l' := LineInsert(l, s[0]);
      calc {
        Run(l, Typed(s), eraser, killer, printable);
        { assert Typed(s) == [Wide(s[0])] + Typed(s[1..]); }
        Run(l, [Wide(s[0])] + Typed(s[1..]), eraser, killer, printable);
        { PlainStep(l, s[0], eraser, killer, printable);
          RunCons(l, Wide(s[0]), Typed(s[1..]), eraser, killer, printable); }
        Run(l', Typed(s[1..]), eraser, killer, printable);
        { TypingInserts(l', s[1..], eraser, killer, printable); }
        (Continue, Line(l'.text[..l'.cursor] + s[1..] + l'.text[l'.cursor..], l'.cursor + |s[1..]|));
        { InsertSplit(l, s[0]);
          assert pre + [s[0]] + s[1..] + post == pre + s + post; }
        (Continue, Line(pre + s + post, l.cursor + |s|));
      }
    }
  }

  /** struct edit, together with the INPUT string it is encoded into. */
  class Editor {
    var buffer: array<char>
    var left: int
    var right: int
    var input: string

    /**
     * The gap buffer's bounds: the gap is buffer[left, right], the cursor
     * never passes the end, and the last cell terminates the text.
     */
    ghost predicate Valid()
      reads this, buffer
    {
      && buffer.Length == BUFLEN + 1
      && 0 <= left <= right <= BUFLEN - 1
      && buffer[BUFLEN] == '\0'
    }

    /** The text the buffer holds: before the gap, then after it. */
    function Text(): (t: string)
      requires Valid()
      reads this, buffer
      ensures |t| == left + (BUFLEN - 1 - right)
    {
      buffer[..left] + buffer[right + 1..BUFLEN]
    }

    /** The buffer seen as a line with the cursor at `left`. */
    function View(): (l: Line)
      requires Valid()
      reads this, buffer
      ensures LineOk(l)
    {
      Line(Text(), left)
    }

    /**
     * The zero-initialised static editor state: the gap is empty, so the
     * buffer is full, and its text is CAP NUL characters. It becomes usable
     * with start_line_edit.
     */
    constructor ()
      ensures Valid() && fresh(buffer)
      ensures left == 0 && right == 0 && input == ""
      ensures Text() == seq(CAP, _ => '\0')
    {
      buffer := new char[BUFLEN + 1](_ => '\0');
      left := 0;
      right := 0;
      input := "";
    }

    /** EDIT_LEFT: the character before the gap moves to its far end. */
    method MoveLeft()
      requires Valid() && left > 0
      modifies this, buffer
      ensures Valid() && buffer == old(buffer) && input == old(input)
      ensures left == old(left) - 1 && right == old(right) - 1
      ensures View() == LineLeft(old(View()))
    {
      ghost var b := buffer[..];
      left := left - 1;
      buffer[right] := buffer[left];
      right := right - 1;
      assert buffer[..left] == b[..left];
      assert buffer[right + 1..BUFLEN] == [b[left]] + b[right + 2..BUFLEN];
      assert b[..left + 1] == b[..left] + [b[left]];
    }

    /** EDIT_RIGHT: the character after the gap moves to its near end. */
    method MoveRight()
      requires Valid() && right < BUFLEN - 1
      modifies this, buffer
      ensures Valid() && buffer == old(buffer) && input == old(input)
      ensures left == old(left) + 1 && right == old(right) + 1
      ensures View() == LineRight(old(View()))
    {
      ghost var b := buffer[..];
      right := right + 1;
      buffer[left] := buffer[right];
      left := left + 1;
      assert buffer[..left] == b[..left - 1] + [b[right]];
      assert buffer[right + 1..BUFLEN] == b[right + 1..BUFLEN];
      assert b[right..BUFLEN] == [b[right]] + b[right + 1..BUFLEN];
    }

    /** EDIT_INSERT: `c` goes into the first cell of the gap. */
    method Insert(c: char)
      requires Valid() && left < right
      modifies this, buffer
      ensures Valid() && buffer == old(buffer) && input == old(input)
      ensures left == old(left) + 1 && right == old(right)
      ensures View() == LineInsert(old(View()), c)
    {
      ghost var b := buffer[..];
      ghost var t := Text();
      buffer[left] := c;
      left := left + 1;
      assert buffer[..left] == b[..left - 1] + [c];
      assert buffer[right + 1..BUFLEN] == b[right + 1..BUFLEN];
      assert t[..left - 1] == b[..left - 1];
      assert t[left - 1..] == b[right + 1..BUFLEN];
    }

    /** EDIT_BACKSPACE: the gap swallows the character before it. */
    method Backspace()
      requires Valid() && left > 0
      modifies this
      ensures Valid() && buffer == old(buffer) && input == old(input)
      ensures left == old(left) - 1 && right == old(right)
      ensures View() == LineBackspace(old(View()))
    {
      ghost var t := Text();
      left := left - 1;
      assert t[..left] == buffer[..left];
      assert t[left + 1..] == buffer[right + 1..BUFLEN];
    }

    /** EDIT_DELETE: the gap swallows the character after it. */
    method Delete()
      requires Valid() && right < BUFLEN - 1
      modifies this
      ensures Valid() && buffer == old(buffer) && input == old(input)
      ensures left == old(left) && right == old(right) + 1
      ensures View() == LineDelete(old(View()))
    {
      ghost var t := Text();
      right := right + 1;
      assert t[..left] == buffer[..left];
      assert t[left..] == buffer[right..BUFLEN];
      assert buffer[right..BUFLEN] == [buffer[right]] + buffer[right + 1..BUFLEN];
    }

    /** EDIT_CLEAR: the gap covers the whole buffer. */
    method Clear()
      requires Valid()
      modifies this
      ensures Valid() && buffer == old(buffer) && input == old(input)
      ensures left == 0 && right == BUFLEN - 1
      ensures View() == Line("", 0)
    {
      left := 0;
      right := BUFLEN - 1;
    }

    /**
     * start_line_edit: INPUT and the text before the cursor become `init`,
     * and nothing follows the cursor.
     */
    method Start(init: string)
      requires Valid() && |init| < BUFLEN
      modifies this, buffer
      ensures Valid() && buffer == old(buffer)
      ensures input == init && right == BUFLEN - 1
      ensures View() == Line(init, |init|)
    {
      input := init;
      forall k | 0 <= k < |init| {
        buffer[k] := init[k];
      }
      buffer[|init|] := '\0';
      left := |init|;
      right := BUFLEN - 1;
      buffer[BUFLEN] := '\0';
      assert buffer[..left] == init;
    }

    /** KEY_UP: EDIT_LEFT until the gap reaches the start of the text. */
    method MoveHome()
      requires Valid()
      modifies this, buffer
      ensures Valid() && buffer == old(buffer) && input == old(input)
      ensures View() == Line(old(Text()), 0)
    {
      ghost var t := Text();
      while left > 0
        invariant Valid() && buffer == old(buffer) && input == old(input)
        invariant View() == Line(t, left)
      {
        MoveLeft();
      }
    }

    /** KEY_DOWN: EDIT_RIGHT until the gap reaches the end of the buffer. */
    method MoveEnd()
      requires Valid()
      modifies this, buffer
      ensures Valid() && buffer == old(buffer) && input == old(input)
      ensures View() == Line(old(Text()), |old(Text())|)
      ensures right == BUFLEN - 1
    {
      ghost var t := Text();
      while right < BUFLEN - 1
        invariant Valid() && buffer == old(buffer) && input == old(input)
        invariant View() == Line(t, left)
      {
        MoveRight();
      }
    }

    /**
     * get_line_edit after the key has been read: Enter, CR and LF confirm,
     * Tab cancels, both leaving buffer and INPUT as they were; every other
     * key edits the buffer as `Step` says and re-encodes it into INPUT.
     */
    method GetLineEdit(key: Key, eraser: char, killer: char, printable: char -> bool) returns (st: EditState)
      requires Valid()
      modifies this, buffer
      ensures Valid() && buffer == old(buffer)
      ensures (st, View()) == Step(old(View()), key, eraser, killer, printable)
      ensures st == Continue ==> input == Text()
      ensures st != Continue ==>
        && input == old(input) && left == old(left) && right == old(right)
        && buffer[..] == old(buffer[..])
    {
      if key.Code? {
        var c := key.code;
        if c == KeyEnter {
          return Confirm;
        } else if c == KeyLeft {
          if left > 0 {
            MoveLeft();
          }
        } else if c == KeyRight {
          if right < BUFLEN - 1 {
            MoveRight();
          }
        } else if c == KeyUp {
          MoveHome();
        } else if c == KeyDown {
          MoveEnd();
        } else if c == KeyBackspace {
          if left > 0 {
            Backspace();
          }
        } else if c == KeyDc {
          if right < BUFLEN - 1 {
            Delete();
          }
        }
      } else {
        var wch := key.ch;
        if wch == '\r' || wch == '\n' {
          return Confirm;
        } else if wch == '\t' {
          return Cancel;
        } else if wch == eraser {
          if left > 0 {
            Backspace();
          }
        } else if wch == killer {
          Clear();
        } else if printable(wch) {
          if left != right {
            Insert(wch);
          }
        }
      }
      Encode();
      st := Continue;
    }

    /**
     * The encoding step at the end of get_line_edit: terminate the text
     * before the gap, then convert both halves into INPUT.
     */
    method Encode()
      requires Valid()
      modifies this, buffer
      ensures Valid() && buffer == old(buffer)
      ensures left == old(left) && right == old(right)
      ensures Text() == old(Text()) && input == Text()
    {
      ghost var b := buffer[..];
      buffer[left] := '\0';
      assert buffer[..left] == b[..left];
      assert buffer[right + 1..BUFLEN] == b[right + 1..BUFLEN];
      input := buffer[..left];
      input := input + buffer[right + 1..BUFLEN];
    }
  }
}
