/** The text editor example: a list of lines, the line the cursor is on,
    the insertion index within that line, the cursor's display column and
    the "shadow" column remembered while moving up and down. Tabs advance the
    display column to the next multiple of the tab width.

    Lines are sequences of characters; the editor only ever inserts the
    ASCII characters `KeyToChar` yields, so a character index and the byte
    index the editor example uses agree. */
module TextEditor {
  import opened IntOps
  import opened Input

  const TAB_CHAR: char := '\t'

  function Min(a: nat, b: nat): nat
  {
    if a < b then a else b
  }

  /** The display column after one more character: the next tab stop for a
      tab, the next column for anything else. */
  function Advance(pos: nat, c: char, tab: nat): (r: nat)
    requires tab > 0
    ensures pos < r <= pos + tab
    ensures c == TAB_CHAR ==> r % tab == 0
    ensures c != TAB_CHAR ==> r == pos + 1
  {
    if c == TAB_CHAR then TabStop(pos, tab) else pos + 1
  }

  /** The tab stop after column pos: the next multiple of tab. */
  function TabStop(pos: nat, tab: nat): (r: nat)
    requires tab > 0
    ensures pos < r <= pos + tab && r % tab == 0
  {
    var q, m := pos / tab, pos % tab;
    assert pos + (tab - m) == (q + 1) * tab;
    MulDivCancel(q + 1, tab);
    pos + (tab - m)
  }

  /** The display width of s: its characters advanced over from column 0. */
  function Width(s: seq<char>, tab: nat): (w: nat)
    requires tab > 0
    ensures |s| <= w
    ensures TAB_CHAR !in s ==> w == |s|
    decreases |s|
  {
    if s == [] then 0 else Advance(Width(s[..|s| - 1], tab), s[|s| - 1], tab)
  }

  /** One character more: the width of a prefix one longer, with the step
      written as the editor example computes it. */
  lemma {:induction false} WidthStep(s: seq<char>, tab: nat, i: nat)
    requires tab > 0 && i < |s|
    ensures Width(s[..i + 1], tab) ==
      var w := Width(s[..i], tab); if s[i] == TAB_CHAR then w + (tab - w % tab) else w + 1
  {
    assert s[..i + 1][..i] == s[..i];
  }

  lemma {:induction false} WidthGrows(s: seq<char>, tab: nat, j: nat)
    requires tab > 0 && 0 < j <= |s|
    ensures Width(s[..j - 1], tab) < Width(s[..j], tab)
  {
    assert s[..j][..j - 1] == s[..j - 1];
  }

  /** A longer prefix is at least as wide, and strictly wider when it is
      longer. */
  lemma {:induction false} WidthMonotone(s: seq<char>, tab: nat, i: nat, j: nat)
    requires tab > 0 && i <= j <= |s|
    ensures Width(s[..i], tab) + (j - i) <= Width(s[..j], tab)
    decreases j - i
  {
    if i < j {
      WidthMonotone(s, tab, i, j - 1);
      WidthGrows(s, tab, j);
    }
  }

  /** k is where `calc_insertion_pos` stops on line for a shadow column:
      the first k characters fit within the shadow column and, unless k is
      the whole line, one more would not. */
  predicate Fits(line: seq<char>, k: nat, shadow: nat, tab: nat)
    requires tab > 0
  {
    k <= |line| && Width(line[..k], tab) <= shadow && (k < |line| ==> Width(line[..k + 1], tab) > shadow)
  }

  /** Exactly one insertion index fits a line and a shadow column, and it is
      the longest prefix that does not pass the column. */
  lemma FitsUnique(line: seq<char>, shadow: nat, tab: nat, a: nat, b: nat)
    requires tab > 0 && Fits(line, a, shadow, tab) && Fits(line, b, shadow, tab)
    ensures a == b
  {
    if a < b {
      WidthMonotone(line, tab, a + 1, b);
    } else if b < a {
      WidthMonotone(line, tab, b + 1, a);
    }
  }

  lemma FitsLongest(line: seq<char>, shadow: nat, tab: nat, k: nat, m: nat)
    requires tab > 0 && Fits(line, k, shadow, tab) && k < m <= |line|
    ensures Width(line[..m], tab) > shadow
  {
    WidthMonotone(line, tab, k + 1, m);
  }

  /** All the lines run together, the text the editor holds apart from its
      line breaks. */
  function Joined(ls: seq<seq<char>>): (t: seq<char>)
    ensures ls == [] ==> t == []
    decreases |ls|
  {
    if ls == [] then [] else Joined(ls[..|ls| - 1]) + ls[|ls| - 1]
  }

  lemma {:induction false} JoinedConcat(a: seq<seq<char>>, b: seq<seq<char>>)
    ensures Joined(a + b) == Joined(a) + Joined(b)
    decreases |b|
  {
    if b != [] {
      var b', last := b[..|b| - 1], b[|b| - 1];
      assert a + b == (a + b') + [last];
      assert (a + b)[..|a + b| - 1] == a + b';
      JoinedConcat(a, b');
      assert Joined(a + b) == Joined(a + b') + last;
      assert Joined(b) == Joined(b') + last;
    } else {
      assert a + b == a;
    }
  }

  /** Splitting one line in two, or inserting an empty line, leaves the
      running text as it was; so does joining a line to the next. */
  lemma {:induction false} SplitKeepsText(before: seq<seq<char>>, line: seq<char>, k: nat, after: seq<seq<char>>)
    requires k <= |line|
    ensures Joined(before + [line[..k], line[k..]] + after) == Joined(before + [line] + after)
  {
    JoinedConcat(before + [line[..k], line[k..]], after);
    JoinedConcat(before + [line], after);
    JoinedConcat(before, [line[..k], line[k..]]);
    JoinedConcat(before, [line]);
    assert [line[..k], line[k..]][..1] == [line[..k]];
    assert line[..k] + line[k..] == line;
  }

  lemma {:induction false} EmptyLineKeepsText(before: seq<seq<char>>, after: seq<seq<char>>)
    ensures Joined(before + [[]] + after) == Joined(before + after)
  {
    JoinedConcat(before + [[]], after);
    JoinedConcat(before, after);
    JoinedConcat(before, [[]]);
  }

  /** An empty line put in at index l: one more line, the new one empty,
      the running text unchanged. */
  lemma EmptyLineAt(ls: seq<seq<char>>, l: nat)
    requires l <= |ls|
    ensures var r := ls[..l] + [[]] + ls[l..];
      |r| == |ls| + 1 && r[l] == [] && Joined(r) == Joined(ls)
  {
    EmptyLineKeepsText(ls[..l], ls[l..]);
    assert ls[..l] + ls[l..] == ls;
  }

  /** Line l broken at index k: one more line, the second half at l + 1,
      the running text unchanged. */
  lemma SplitLineAt(ls: seq<seq<char>>, l: nat, k: nat)
    requires l < |ls| && k <= |ls[l]|
    ensures var r := ls[..l] + [ls[l][..k], ls[l][k..]] + ls[l + 1..];
      |r| == |ls| + 1 && r[l + 1] == ls[l][k..] && Joined(r) == Joined(ls)
  {
    assert ls == ls[..l] + [ls[l]] + ls[l + 1..];
    SplitKeepsText(ls[..l], ls[l], k, ls[l + 1..]);
  }

  /** A position in a buffer: a line and an insertion index within it. */
  predicate At(lines: seq<seq<char>>, cur: nat, ins: nat)
  {
    cur < |lines| && ins <= |lines[cur]|
  }

  /** The index into the running text of the position (cur, ins). */
  function TextIndex(lines: seq<seq<char>>, cur: nat, ins: nat): nat
    requires cur <= |lines|
  {
    |Joined(lines[..cur])| + ins
  }

  /** The number of steps from the start of the buffer to (cur, ins), a
      line break counting as one step. */
  function Offset(lines: seq<seq<char>>, cur: nat, ins: nat): nat
    requires cur <= |lines|
  {
    TextIndex(lines, cur, ins) + cur
  }

  lemma {:induction false} JoinedPrefixStep(ls: seq<seq<char>>, k: nat)
    requires k < |ls|
    ensures Joined(ls[..k + 1]) == Joined(ls[..k]) + ls[k]
  {
    assert ls[..k + 1][..k] == ls[..k];
  }

  /** Replacing one line replaces its stretch of the running text. */
  lemma {:induction false} JoinedUpdate(ls: seq<seq<char>>, cur: nat, line: seq<char>)
    requires cur < |ls|
    ensures Joined(ls[cur := line]) == Joined(ls[..cur]) + line + Joined(ls[cur + 1..])
    ensures Joined(ls) == Joined(ls[..cur]) + ls[cur] + Joined(ls[cur + 1..])
  {
    assert ls[cur := line] == ls[..cur] + [line] + ls[cur + 1..];
    assert ls == ls[..cur] + [ls[cur]] + ls[cur + 1..];
    JoinedConcat(ls[..cur] + [line], ls[cur + 1..]);
    JoinedConcat(ls[..cur], [line]);
    JoinedConcat(ls[..cur] + [ls[cur]], ls[cur + 1..]);
    JoinedConcat(ls[..cur], [ls[cur]]);
    assert [line][..0] == [] && [ls[cur]][..0] == [];
  }

  /** Cutting pre + mid + post at an index inside mid. */
  lemma CutInside(pre: seq<char>, mid: seq<char>, post: seq<char>, k: nat)
    requires k <= |mid|
    ensures (pre + mid + post)[..|pre| + k] == pre + mid[..k]
    ensures (pre + mid + post)[|pre| + k..] == mid[k..] + post
  {
  }

  /** Typing c at (cur, k) inserts c into the running text at the
      position's text index. */
  lemma {:induction false} JoinedInsert(ls: seq<seq<char>>, cur: nat, k: nat, c: char)
    requires At(ls, cur, k)
    ensures var t := TextIndex(ls, cur, k);
      t <= |Joined(ls)| && Joined(ls[cur := ls[cur][..k] + [c] + ls[cur][k..]]) == Joined(ls)[..t] + [c] + Joined(ls)[t..]
  {
    var l := ls[cur];
    JoinedUpdate(ls, cur, l[..k] + [c] + l[k..]);
    var pre, post := Joined(ls[..cur]), Joined(ls[cur + 1..]);
    CutInside(pre, l, post, k);
    assert pre + (l[..k] + [c] + l[k..]) + post == (pre + l[..k]) + [c] + (l[k..] + post);
  }

  /** Deleting the character at (cur, k) deletes the running text's
      character at the position's text index. */
  lemma {:induction false} JoinedRemove(ls: seq<seq<char>>, cur: nat, k: nat)
    requires cur < |ls| && k < |ls[cur]|
    ensures var t := TextIndex(ls, cur, k);
      t < |Joined(ls)| && Joined(ls[cur := ls[cur][..k] + ls[cur][k + 1..]]) == Joined(ls)[..t] + Joined(ls)[t + 1..]
  {
    var l := ls[cur];
    JoinedUpdate(ls, cur, l[..k] + l[k + 1..]);
    var pre, post := Joined(ls[..cur]), Joined(ls[cur + 1..]);
    CutInside(pre, l, post, k);
    CutInside(pre, l, post, k + 1);
    var t := TextIndex(ls, cur, k);
    assert Joined(ls)[..t] + Joined(ls)[t + 1..] == (pre + l[..k]) + (l[k + 1..] + post);
    assert pre + (l[..k] + l[k + 1..]) + post == (pre + l[..k]) + (l[k + 1..] + post);
  }

  /** Joining line cur and the next one keeps the running text. */
  lemma {:induction false} JoinNextKeepsText(ls: seq<seq<char>>, cur: nat)
    requires cur + 1 < |ls|
    ensures Joined(ls[..cur] + [ls[cur] + ls[cur + 1]] + ls[cur + 2..]) == Joined(ls)
  {
    var pre, a, b, post := ls[..cur], ls[cur], ls[cur + 1], ls[cur + 2..];
    assert ls == pre + [a, b] + post;
    assert Joined([a + b]) == a + b by {
      assert [a + b][..0] == [];
    }
    assert Joined([a, b]) == a + b by {
      assert [a, b][..1] == [a] && [a][..0] == [];
    }
    JoinedConcat(pre + [a + b], post);
    JoinedConcat(pre, [a + b]);
    JoinedConcat(pre + [a, b], post);
    JoinedConcat(pre, [a, b]);
  }

  /** `move_cursor_forward` on positions: one character on, to the start
      of the next line from the end of a line, nowhere from the end of the
      buffer. */
  function Forward(lines: seq<seq<char>>, cur: nat, ins: nat): (p: (nat, nat))
    requires At(lines, cur, ins)
    ensures At(lines, p.0, p.1)
  {
    if ins < |lines[cur]| then (cur, ins + 1)
    else if cur < |lines| - 1 then (cur + 1, 0)
    else (cur, ins)
  }

  /** `move_cursor_backward` on positions: one character back, to the end
      of the previous line from the start of a line, nowhere from the start
      of the buffer. */
  function Backward(lines: seq<seq<char>>, cur: nat, ins: nat): (p: (nat, nat))
    requires At(lines, cur, ins)
    ensures At(lines, p.0, p.1)
  {
    if ins == 0 then (if cur != 0 then (cur - 1, |lines[cur - 1]|) else (cur, ins))
    else (cur, ins - 1)
  }

  /** Forward advances exactly one step, except at the end of the buffer
      where it stays. */
  lemma {:induction false} ForwardStep(lines: seq<seq<char>>, cur: nat, ins: nat)
    requires At(lines, cur, ins)
    ensures var p := Forward(lines, cur, ins);
      if cur == |lines| - 1 && ins == |lines[cur]| then p == (cur, ins)
      else Offset(lines, p.0, p.1) == Offset(lines, cur, ins) + 1
  {
    if ins == |lines[cur]| && cur < |lines| - 1 {
      JoinedPrefixStep(lines, cur);
    }
  }

  /** Backward goes back exactly one step, except at the start of the
      buffer where it stays. */
  lemma {:induction false} BackwardStep(lines: seq<seq<char>>, cur: nat, ins: nat)
    requires At(lines, cur, ins)
    ensures var p := Backward(lines, cur, ins);
      if cur == 0 && ins == 0 then p == (0, 0)
      else Offset(lines, p.0, p.1) + 1 == Offset(lines, cur, ins)
  {
    if ins == 0 && cur != 0 {
      JoinedPrefixStep(lines, cur - 1);
    }
  }

  /** Forward and Backward undo each other away from the ends. */
  lemma ForwardBackward(lines: seq<seq<char>>, cur: nat, ins: nat)
    requires At(lines, cur, ins) && !(cur == |lines| - 1 && ins == |lines[cur]|)
    ensures var p := Forward(lines, cur, ins); Backward(lines, p.0, p.1) == (cur, ins)
  {
  }

  lemma BackwardForward(lines: seq<seq<char>>, cur: nat, ins: nat)
    requires At(lines, cur, ins) && !(cur == 0 && ins == 0)
    ensures var p := Backward(lines, cur, ins); Forward(lines, p.0, p.1) == (cur, ins)
  {
  }

  /** The editor's state. The colours and the blink timer are left out. */
  class Editor {
    var lines: seq<seq<char>>
    var currentLine: nat
    var insertionPos: nat
    var cursorPos: nat
    var shadowPos: nat
    const tabWidth: nat
    var cursorBlinkState: bool
    var needsRedraw: bool

    /** The cursor is on a line of the buffer, at an index within it. */
    predicate Positioned()
      reads this
    {
      tabWidth > 0 && At(lines, currentLine, insertionPos)
    }

    /** Positioned, and the cursor column is the display width of the
        current line up to the insertion index. */
    predicate Valid()
      reads this
    {
      Positioned() && cursorPos == Width(lines[currentLine][..insertionPos], tabWidth)
    }

    /** `TextEditor::default`: one empty line, tab width 4, a redraw due. */
    constructor Default()
      ensures Valid()
      ensures lines == [[]] && currentLine == 0 && insertionPos == 0 && cursorPos == 0 && shadowPos == 0
      ensures tabWidth == 4 && !cursorBlinkState && needsRedraw
    {
      lines, currentLine, insertionPos, cursorPos, shadowPos := [[]], 0, 0, 0, 0;
      tabWidth := 4;
      cursorBlinkState, needsRedraw := false, true;
    }

    /** `calc_cursor_pos`: the cursor column becomes the display width of
        the current line up to the insertion index (the whole line when the
        index is past its end); the shadow column follows on request. */
    method CalcCursorPos(setShadow: bool)
      requires tabWidth > 0 && currentLine < |lines|
      modifies this`cursorPos, this`shadowPos
      ensures cursorPos == Width(lines[currentLine][..Min(insertionPos, |lines[currentLine]|)], tabWidth)
      ensures shadowPos == if setShadow then cursorPos else old(shadowPos)
    {
      var line := lines[currentLine];
      cursorPos := 0;
      var i := 0;
      while i < |line|
        invariant i <= |line| && i <= Min(insertionPos, |line|)
        invariant cursorPos == Width(line[..i], tabWidth)
        modifies this`cursorPos
      {
        if i >= insertionPos {
          break;
        }
        WidthStep(line, tabWidth, i);
        if line[i] == TAB_CHAR {
          cursorPos := cursorPos + (tabWidth - cursorPos % tabWidth);
        } else {
          cursorPos := cursorPos + 1;
        }
        i := i + 1;
      }
      assert i == Min(insertionPos, |line|);
      if setShadow {
        shadowPos := cursorPos;
      }
    }

    /** `calc_insertion_pos`: the insertion index becomes the longest
        prefix of the current line whose display width stays within the
        shadow column. */
    method CalcInsertionPos()
      requires tabWidth > 0 && currentLine < |lines|
      modifies this`insertionPos
      ensures Fits(lines[currentLine], insertionPos, shadowPos, tabWidth)
    {
      var line := lines[currentLine];
      var pos := 0;
      insertionPos := 0;
      while insertionPos < |line|
        invariant insertionPos <= |line|
        invariant pos == Width(line[..insertionPos], tabWidth) <= shadowPos
      {
        WidthStep(line, tabWidth, insertionPos);
        if line[insertionPos] == TAB_CHAR {
          pos := pos + (tabWidth - pos % tabWidth);
        } else {
          pos := pos + 1;
        }
        assert pos == Width(line[..insertionPos + 1], tabWidth);
        if pos > shadowPos {
          break;
        }
        insertionPos := insertionPos + 1;
      }
    }

    /** `calc_draw_length`: the display width of a line. */
    method CalcDrawLength(text: seq<char>) returns (pos: nat)
      requires tabWidth > 0
      ensures pos == Width(text, tabWidth)
    {
      pos := 0;
      var i := 0;
      while i < |text|
        invariant i <= |text| && pos == Width(text[..i], tabWidth)
      {
        WidthStep(text, tabWidth, i);
        if text[i] == TAB_CHAR {
          var tabSize := tabWidth - pos % tabWidth;
          pos := pos + tabSize;
        } else {
          pos := pos + 1;
        }
        i := i + 1;
      }
      assert text[..|text|] == text;
    }

    /** `reset_cursor_blink`: the cursor shows and a redraw is due. */
    method ResetCursorBlink()
      modifies this`cursorBlinkState, this`needsRedraw
      ensures cursorBlinkState && needsRedraw
    {
      cursorBlinkState := true;
      needsRedraw := true;
    }

    /** `insert_char`: c goes into the current line at the insertion index,
        which moves past it; in the running text c lands at the cursor's
        text index. */
    method InsertChar(c: char)
      requires Valid()
      modifies this
      ensures Valid() && shadowPos == cursorPos && needsRedraw && cursorBlinkState == old(cursorBlinkState)
      ensures currentLine == old(currentLine) && insertionPos == old(insertionPos) + 1
      ensures lines == old(lines[currentLine := lines[currentLine][..insertionPos] + [c] + lines[currentLine][insertionPos..]])
      ensures var t := old(TextIndex(lines, currentLine, insertionPos));
        t <= old(|Joined(lines)|) && Joined(lines) == old(Joined(lines)[..t] + [c] + Joined(lines)[t..])
    {
      JoinedInsert(lines, currentLine, insertionPos, c);
      var line := lines[currentLine];
      var edited: seq<char>;
      if insertionPos < |line| {
        edited := line[..insertionPos] + [c] + line[insertionPos..];
      } else {
        edited := line + [c];
        assert edited == line[..insertionPos] + [c] + line[insertionPos..];
      }
      lines := lines[currentLine := edited];
      insertionPos := insertionPos + 1;
      CalcCursorPos(true);
      assert Min(insertionPos, |lines[currentLine]|) == insertionPos;
      needsRedraw := true;
    }

    /** `remove_char`: the character at the insertion index goes; at the
        end of a line the next line is joined on instead; at the end of the
        buffer nothing changes. The cursor stays at its index. */
    method RemoveChar()
      requires Valid()
      modifies this
      ensures Valid() && shadowPos == cursorPos && needsRedraw && cursorBlinkState == old(cursorBlinkState)
      ensures currentLine == old(currentLine) && insertionPos == old(insertionPos)
      ensures old(insertionPos < |lines[currentLine]|) ==>
        lines == old(lines[currentLine := lines[currentLine][..insertionPos] + lines[currentLine][insertionPos + 1..]])
      ensures old(insertionPos < |lines[currentLine]|) ==>
        var t := old(TextIndex(lines, currentLine, insertionPos));
        t < old(|Joined(lines)|) && Joined(lines) == old(Joined(lines)[..t] + Joined(lines)[t + 1..])
      ensures old(insertionPos == |lines[currentLine]| && currentLine < |lines| - 1) ==>
        lines == old(lines[..currentLine] + [lines[currentLine] + lines[currentLine + 1]] + lines[currentLine + 2..])
      ensures old(insertionPos) == old(|lines[currentLine]|) ==> Joined(lines) == old(Joined(lines))
      ensures old(insertionPos == |lines[currentLine]| && currentLine == |lines| - 1) ==> lines == old(lines)
    {
      var line := lines[currentLine];
      if insertionPos < |line| {
        JoinedRemove(lines, currentLine, insertionPos);
        lines := lines[currentLine := line[..insertionPos] + line[insertionPos + 1..]];
      } else if currentLine < |lines| - 1 {
        JoinNextKeepsText(lines, currentLine);
        var other := lines[currentLine + 1];
        lines := lines[..currentLine] + [line + other] + lines[currentLine + 2..];
      }
      CalcCursorPos(true);
      needsRedraw := true;
    }

    /** `insert_new_line`: the line breaks at the insertion index and the
        cursor goes to the start of the line after the break. At index 0 of
        a non-empty line an empty line is put in front of it instead, and
        the cursor stays on that empty line. The running text is kept. */
    method InsertNewLine()
      requires Valid()
      modifies this
      ensures Valid() && insertionPos == 0 && cursorPos == 0 && needsRedraw
      ensures shadowPos == old(shadowPos) && cursorBlinkState == old(cursorBlinkState)
      ensures |lines| == old(|lines|) + 1 && Joined(lines) == old(Joined(lines))
      ensures old(insertionPos == 0 && 0 < |lines[currentLine]|) ==>
        currentLine == old(currentLine) && lines == old(lines[..currentLine] + [[]] + lines[currentLine..])
      ensures old(0 < insertionPos < |lines[currentLine]|) ==>
        currentLine == old(currentLine) + 1 &&
        lines == old(lines[..currentLine] + [lines[currentLine][..insertionPos], lines[currentLine][insertionPos..]] + lines[currentLine + 1..])
      ensures old(insertionPos == |lines[currentLine]|) ==>
        currentLine == old(currentLine) + 1 && lines == old(lines[..currentLine + 1] + [[]] + lines[currentLine + 1..])
    {
      var line := lines[currentLine];
      if insertionPos < |line| {
        if insertionPos == 0 {
          EmptyLineAt(lines, currentLine);
          lines := lines[..currentLine] + [[]] + lines[currentLine..];
          insertionPos := 0;
          cursorPos := 0;
        } else {
          SplitLineAt(lines, currentLine, insertionPos);
          lines := lines[..currentLine] + [line[..insertionPos], line[insertionPos..]] + lines[currentLine + 1..];
          currentLine := currentLine + 1;
          insertionPos := 0;
          cursorPos := 0;
        }
      } else {
        EmptyLineAt(lines, currentLine + 1);
        lines := lines[..currentLine + 1] + [[]] + lines[currentLine + 1..];
        currentLine := currentLine + 1;
        insertionPos := 0;
        cursorPos := 0;
      }
      needsRedraw := true;
    }

    /** `move_cursor_backward`: one step back (see Backward); the shadow
        column follows the cursor and the cursor shows. */
    method MoveCursorBackward()
      requires Valid()
      modifies this
      ensures Valid() && lines == old(lines)
      ensures (currentLine, insertionPos) == Backward(lines, old(currentLine), old(insertionPos))
      ensures shadowPos == cursorPos && cursorBlinkState && needsRedraw
    {
      if insertionPos == 0 {
        if currentLine != 0 {
          currentLine := currentLine - 1;
          insertionPos := |lines[currentLine]|;
        }
      } else {
        insertionPos := insertionPos - 1;
      }
      CalcCursorPos(true);
      ResetCursorBlink();
    }

    /** `move_cursor_forward`: one step on (see Forward); the shadow column
        follows the cursor and the cursor shows. */
    method MoveCursorForward()
      requires Valid()
      modifies this
      ensures Valid() && lines == old(lines)
      ensures (currentLine, insertionPos) == Forward(lines, old(currentLine), old(insertionPos))
      ensures shadowPos == cursorPos && cursorBlinkState && needsRedraw
    {
      if currentLine < |lines| {
        if insertionPos < |lines[currentLine]| {
          insertionPos := insertionPos + 1;
        } else if currentLine < |lines| - 1 {
          currentLine := currentLine + 1;
          insertionPos := 0;
        }
      }
      CalcCursorPos(true);
      ResetCursorBlink();
    }

    /** The Up key: on the first line the cursor goes to its start and the
        shadow column is reset; otherwise the cursor goes up a line, to the
        index that fits the shadow column, which is kept. */
    method KeyUp()
      requires Valid()
      modifies this
      ensures Valid() && lines == old(lines) && cursorBlinkState && needsRedraw
      ensures old(currentLine) == 0 ==> currentLine == 0 && insertionPos == 0 && cursorPos == 0 && shadowPos == 0
      ensures old(currentLine) > 0 ==>
        currentLine == old(currentLine) - 1 && shadowPos == old(shadowPos) &&
        Fits(lines[currentLine], insertionPos, shadowPos, tabWidth) && cursorPos <= shadowPos
    {
      if currentLine == 0 {
        insertionPos := 0;
        CalcCursorPos(true);
      } else {
        currentLine := currentLine - 1;
        CalcInsertionPos();
        CalcCursorPos(false);
      }
      ResetCursorBlink();
    }

    /** The Down key: on the last line the cursor goes to its end and the
        shadow column follows; otherwise the cursor goes down a line, to the
        index that fits the shadow column, which is kept. */
    method KeyDown()
      requires Valid()
      modifies this
      ensures Valid() && lines == old(lines) && cursorBlinkState && needsRedraw
      ensures old(currentLine) == |lines| - 1 ==>
        currentLine == old(currentLine) && insertionPos == |lines[currentLine]| && shadowPos == cursorPos
      ensures old(currentLine) < |lines| - 1 ==>
        currentLine == old(currentLine) + 1 && shadowPos == old(shadowPos) &&
        Fits(lines[currentLine], insertionPos, shadowPos, tabWidth) && cursorPos <= shadowPos
    {
      if currentLine < |lines| {
        if currentLine == |lines| - 1 {
          insertionPos := |lines[currentLine]|;
          CalcCursorPos(true);
        } else {
          currentLine := currentLine + 1;
          CalcInsertionPos();
          CalcCursorPos(false);
        }
        ResetCursorBlink();
      }
    }

    /** The Back key: away from the start of the buffer, one step back and
        a delete, which takes out the character before the cursor or joins
        the line to the one above. At the start nothing happens. */
    method Backspace()
      requires Valid()
      modifies this
      ensures Valid()
      ensures old(currentLine == 0 && insertionPos == 0) ==>
        lines == old(lines) && currentLine == 0 && insertionPos == 0 && cursorPos == old(cursorPos) &&
        shadowPos == old(shadowPos) && needsRedraw == old(needsRedraw)
      ensures old(insertionPos) > 0 ==>
        var t := old(TextIndex(lines, currentLine, insertionPos));
        currentLine == old(currentLine) && insertionPos == old(insertionPos) - 1 &&
        0 < t <= old(|Joined(lines)|) && Joined(lines) == old(Joined(lines)[..t - 1] + Joined(lines)[t..])
      ensures old(insertionPos) == 0 && old(currentLine) > 0 ==>
        currentLine == old(currentLine) - 1 && insertionPos == old(|lines[currentLine - 1]|) &&
        |lines| == old(|lines|) - 1 && Joined(lines) == old(Joined(lines))
    {
      if !(currentLine == 0 && insertionPos == 0) {
        MoveCursorBackward();
        RemoveChar();
      }
    }
  }

  datatype CharResult = Ok(c: char) | Err

  /** `PRINTABLE_KEYS`, row by row: the keys that type a character. */
  const LETTER_KEYS: seq<Key> := [A, B, C, D, E, F, G, H, I, J, K, L, M, N, O, P, Q, R, S, T, U, V, W, X, Y, Z]
  const DIGIT_KEYS: seq<Key> := [K0, K1, K2, K3, K4, K5, K6, K7, K8, K9]
  const NUM_PAD_DIGIT_KEYS: seq<Key> :=
    [NUM_PAD0, NUM_PAD1, NUM_PAD2, NUM_PAD3, NUM_PAD4, NUM_PAD5, NUM_PAD6, NUM_PAD7, NUM_PAD8, NUM_PAD9]
  const SYMBOL_KEYS: seq<Key> :=
    [BACK_QUOTE, MINUS, EQUAL, LEFT_BRACKET, RIGHT_BRACKET, BACK_SLASH, SEMICOLON, APOSTROPHE, COMMA, PERIOD, SLASH]
  const NUM_PAD_SYMBOL_KEYS: seq<Key> := [NUM_PAD_DIV, NUM_PAD_MUL, NUM_PAD_SUB, NUM_PAD_ADD, NUM_PAD_DECIMAL]
  const PRINTABLE_KEYS: seq<Key> :=
    LETTER_KEYS + DIGIT_KEYS + NUM_PAD_DIGIT_KEYS + [TAB, SPACE] + SYMBOL_KEYS + NUM_PAD_SYMBOL_KEYS

  /** The characters of the two arms of `key_to_char`, row by row in the
      order of `PRINTABLE_KEYS`. */
  const SHIFTED_LETTERS: seq<char> := "ABCDEFGHIJKLMNOPQRSTUVWXYZ"
  const UNSHIFTED_LETTERS: seq<char> := "abcdefghijklmnopqrstuvwxyz"
  const SHIFTED_DIGITS: seq<char> := ")!@#$%^&*("
  const DIGITS: seq<char> := "0123456789"
  const SPACING: seq<char> := "\t "
  const SHIFTED_SYMBOLS: seq<char> := "~_+{}|:\"<>?"
  const UNSHIFTED_SYMBOLS: seq<char> := "`-=[]\\;',./"
  const NUM_PAD_SYMBOLS: seq<char> := "/*-+."
  const SHIFTED_CHARS: seq<char> :=
    SHIFTED_LETTERS + SHIFTED_DIGITS + DIGITS + SPACING + SHIFTED_SYMBOLS + NUM_PAD_SYMBOLS
  const UNSHIFTED_CHARS: seq<char> :=
    UNSHIFTED_LETTERS + DIGITS + DIGITS + SPACING + UNSHIFTED_SYMBOLS + NUM_PAD_SYMBOLS

  /** One arm of the match: the character paired with the first occurrence
      of `key`, and the fallback NUL when there is none. */
  function Lookup(keys: seq<Key>, chars: seq<char>, key: Key): (c: char)
    requires |keys| == |chars|
    ensures key in keys ==> c in chars
    ensures key !in keys ==> c == '\0'
  {
    if keys == [] then '\0'
    else if keys[0] == key then chars[0]
    else Lookup(keys[1..], chars[1..], key)
  }

  /** The character found is the one at the key's first position. */
  lemma {:induction false} LookupAt(keys: seq<Key>, chars: seq<char>, key: Key, i: nat)
    requires |keys| == |chars| && i < |keys| && keys[i] == key
    requires forall j :: 0 <= j < i ==> keys[j] != key
    ensures Lookup(keys, chars, key) == chars[i]
  {
    if i > 0 {
      assert keys[0] != key;
      LookupAt(keys[1..], chars[1..], key, i - 1);
    }
  }

  /** `key_to_char`: Err for a key that types nothing, otherwise the
      key's character with or without shift. */
  function KeyToChar(key: Key, shift: bool): (r: CharResult)
    ensures r.Err? <==> key !in PRINTABLE_KEYS
  {
    if key !in PRINTABLE_KEYS then Err
    else if shift then Ok(Lookup(PRINTABLE_KEYS, SHIFTED_CHARS, key))
    else Ok(Lookup(PRINTABLE_KEYS, UNSHIFTED_CHARS, key))
  }

  /** Both tables cover every printable key, so the NUL fallback is never
      taken. */
  lemma TablesCoverPrintable(key: Key, shift: bool)
    requires key in PRINTABLE_KEYS
    ensures KeyToChar(key, shift).Ok? && KeyToChar(key, shift).c != '\0'
  {
    assert '\0' !in SHIFTED_LETTERS && '\0' !in UNSHIFTED_LETTERS;
    assert '\0' !in SHIFTED_DIGITS && '\0' !in DIGITS && '\0' !in SPACING;
    assert '\0' !in SHIFTED_SYMBOLS && '\0' !in UNSHIFTED_SYMBOLS && '\0' !in NUM_PAD_SYMBOLS;
  }

  /** Keys found in a prefix are looked up in that prefix alone. */
  lemma {:induction false} LookupPrefix(keys: seq<Key>, chars: seq<char>, key: Key, n: nat)
    requires |keys| == |chars| && n <= |keys| && key in keys[..n]
    ensures Lookup(keys, chars, key) == Lookup(keys[..n], chars[..n], key)
  {
    if keys[0] != key {
      assert keys[1..][..n - 1] == keys[..n][1..];
      assert chars[1..][..n - 1] == chars[..n][1..];
      LookupPrefix(keys[1..], chars[1..], key, n - 1);
    }
  }

  /** The letter rows of the two tables run through the alphabet. */
  lemma LetterRows()
    ensures forall j :: 0 <= j < 26 ==> LETTER_KEYS[j] == A + j as Key
    ensures forall j :: 0 <= j < 26 ==> SHIFTED_LETTERS[j] == ('A' as int + j) as char
    ensures forall j :: 0 <= j < 26 ==> UNSHIFTED_LETTERS[j] == ('a' as int + j) as char
  {
  }

  /** A letter key types its capital with shift and its small letter
      without. */
  lemma LetterCase(key: Key, shift: bool)
    requires A <= key <= Z
    ensures KeyToChar(key, shift) == Ok(((if shift then 'A' else 'a') as int + (key - A) as int) as char)
  {
    var i := (key - A) as int;
    LetterRows();
    assert key in LETTER_KEYS;
    assert PRINTABLE_KEYS[..26] == LETTER_KEYS;
    if shift {
      assert SHIFTED_CHARS[..26] == SHIFTED_LETTERS;
      LookupPrefix(PRINTABLE_KEYS, SHIFTED_CHARS, key, 26);
      LookupAt(LETTER_KEYS, SHIFTED_LETTERS, key, i);
    } else {
      assert UNSHIFTED_CHARS[..26] == UNSHIFTED_LETTERS;
      LookupPrefix(PRINTABLE_KEYS, UNSHIFTED_CHARS, key, 26);
      LookupAt(LETTER_KEYS, UNSHIFTED_LETTERS, key, i);
    }
  }
}
