/**
 The 80 by 25 text screen as a window on a terminal that never scrolls: a roll of rows
 that only grows at the bottom.
 */
module Terminals {

  const WIDTH: nat := 80
  const HEIGHT: nat := 25

  /** White on black, in the high byte of a cell. */
  const ATTRIBUTE: int := 0x0f00
  const BLANK: int := 0x0f20

  /** A `char`, signed as on the target. */
  type Char = c: int | -128 <= c < 128

  const BACKSPACE: Char := 8
  const TAB: Char := 9
  const NEWLINE: Char := 10
  const RETURN: Char := 13
  const SPACE: Char := 32

  // ---------- the roll ----------

  /** All rows so far; the cursor is in the last one, at column x. */
  datatype Roll = Roll(rows: seq<seq<int>>, x: nat)

  ghost predicate Proper(r: Roll) {
    r.rows != [] && r.x < WIDTH && forall k :: 0 <= k < |r.rows| ==> |r.rows[k]| == WIDTH
  }

  function BlankRow(): (row: seq<int>)
    ensures |row| == WIDTH && forall i :: 0 <= i < WIDTH ==> row[i] == BLANK
  {
    seq(WIDTH, _ => BLANK)
  }

  /** A printable character with the attribute; the two do not overlap. */
  function Cell(c: Char): int
    requires c >= SPACE
  {
    c + ATTRIBUTE
  }

  function NewRow(r: Roll): Roll {
    Roll(r.rows + [BlankRow()], 0)
  }

  /** Moving the cursor right of the last column starts a new row. */
  function Wrapped(r: Roll, x: nat): Roll {
    if x >= WIDTH then NewRow(r) else r.(x := x)
  }

  function Typed(r: Roll, c: Char): (r': Roll)
    requires Proper(r)
    ensures Proper(r')
  {
    var y := |r.rows| - 1;
    if c == BACKSPACE && r.x > 0 then r.(x := r.x - 1)
    else if c == TAB then Wrapped(r, (r.x / 8 + 1) * 8)
    else if c == RETURN then r.(x := 0)
    else if c == NEWLINE then NewRow(r)
    else if c >= SPACE then Wrapped(r.(rows := r.rows[y := r.rows[y][r.x := Cell(c)]]), r.x + 1)
    else r
  }

  function TypedAll(r: Roll, text: seq<Char>): (r': Roll)
    requires Proper(r)
    ensures Proper(r')
  {
    if text == [] then r else Typed(TypedAll(r, text[..|text| - 1]), text[|text| - 1])
  }

  /** Rows above the cursor's are never touched again. */
  lemma {:induction false} HistoryStays(r: Roll, text: seq<Char>, k: nat)
    requires Proper(r) && k < |r.rows| - 1
    ensures |TypedAll(r, text).rows| >= |r.rows| && TypedAll(r, text).rows[k] == r.rows[k]
  {
    if text != [] {
      HistoryStays(r, text[..|text| - 1], k);
    }
  }

  /** On a fresh roll the n-th of a run of printable characters is at row n / 80, column n % 80. */
  lemma {:induction false} TextFlows(text: seq<Char>)
    requires forall n :: 0 <= n < |text| ==> text[n] >= SPACE
    ensures var r := TypedAll(Roll([BlankRow()], 0), text);
            && |r.rows| == |text| / 80 + 1 && r.x == |text| % 80
            && (forall n :: 0 <= n < |text| ==> r.rows[n / 80][n % 80] == 0x0f * 256 + text[n] as int)
  {
    hide BlankRow;
    if text != [] {
      TextFlows(text[..|text| - 1]);
    }
  }

  /** Control characters keep every cell: they only move the cursor, down into a new blank row if need be. */
  lemma ControlCharacters(r: Roll)
    requires Proper(r)
    ensures Typed(r, 8) == r.(x := if r.x > 0 then r.x - 1 else 0)
    ensures Typed(r, 13) == r.(x := 0)
    ensures var n := Typed(r, 10); n.x == 0 && OneBlankRowMore(r, n)
    ensures var t := Typed(r, 9);
            if r.x < 72 then t.rows == r.rows && t.x % 8 == 0 && r.x < t.x <= r.x + 8 else t.x == 0 && OneBlankRowMore(r, t)
    ensures forall c: Char :: c < 32 && c != 8 && c != 9 && c != 10 && c != 13 ==> Typed(r, c) == r
  {}

  ghost predicate OneBlankRowMore(r: Roll, s: Roll) {
    && |s.rows| == |r.rows| + 1 && s.rows[..|r.rows|] == r.rows
    && |s.rows[|r.rows|]| == 80 && forall x :: 0 <= x < 80 ==> s.rows[|r.rows|][x] == 0x0f20
  }

  // ---------- the screen in numbers ----------

  /** The cursor goes down a row; below the last one the screen moves up instead and a blank row comes in. */
  ghost predicate MovedDown(v: seq<int>, y: nat, v': seq<int>, y': nat) {
    && |v| == |v'| == 2000
    && (if y < 24 then y' == y + 1 && v' == v
        else y' == 24 && forall k :: 0 <= k < 2000 ==> v'[k] == if k < 1920 then v[k + 80] else 0x0f20)
  }

  /** The same before the screen has moved: the cursor may stand below the last row. */
  ghost predicate CharacterPlaced(c: Char, v: seq<int>, x: nat, y: nat, v': seq<int>, x': nat, y': nat) {
    var down := c == 10 || (c == 9 && x >= 72) || (c >= 32 && x == 79);
    && |v| == |v'| == 2000 && x < 80 && y < 25
    && v' == (if c >= 32 then v[y * 80 + x := 0x0f * 256 + c as int] else v)
    && y' == (if down then y + 1 else y)
    && (if down || c == 13 then x' == 0
        else if c == 9 then x' % 8 == 0 && x < x' <= x + 8
        else if c == 8 then x' == if x > 0 then x - 1 else 0
        else x' == if c >= 32 then x + 1 else x)
  }

  /** What one character does to the cells and to the cursor in column x and row y. */
  ghost predicate CharacterShown(c: Char, v: seq<int>, x: nat, y: nat, v': seq<int>, x': nat, y': nat) {
    && |v| == |v'| == 2000 && x < 80 && y < 25 && x' < 80 && y' < 25
    && (if c >= 32 then
          // the character in the low byte, white on black in the high byte, at the cursor
          var w := v[y * 80 + x := 0x0f * 256 + c as int];
          if x < 79 then v' == w && x' == x + 1 && y' == y else x' == 0 && MovedDown(w, y, v', y')
        else if c == 10 then x' == 0 && MovedDown(v, y, v', y')
        else if c == 9 && x >= 72 then x' == 0 && MovedDown(v, y, v', y')
        else if c == 9 then v' == v && y' == y && x' % 8 == 0 && x < x' <= x + 8
        else if c == 8 then v' == v && y' == y && x' == if x > 0 then x - 1 else 0
        else if c == 13 then v' == v && y' == y && x' == 0
        else v' == v && y' == y && x' == x)
  }

  /** The row of the roll at the top of the window: the window ends at the cursor's row once there are enough rows. */
  function TopRow(r: Roll): nat {
    if |r.rows| <= HEIGHT then 0 else |r.rows| - HEIGHT
  }

  /** What a window with its top at row `top` shows in row y and column x. */
  function Shown(r: Roll, top: nat, y: nat, x: nat): int
    requires Proper(r) && x < WIDTH
  {
    if top + y < |r.rows| then r.rows[top + y][x] else BLANK
  }

  // ---------- the screen ----------

  class Monitor {
    const video: array<int>
    var cursorX: nat
    var cursorY: nat
    ghost var roll: Roll

    ghost predicate Valid()
      reads this, video
    {
      && video.Length == WIDTH * HEIGHT
      && Proper(roll)
      && cursorX == roll.x && cursorY == |roll.rows| - 1 - TopRow(roll)
      && Shows(roll, TopRow(roll))
    }

    /** The 25 rows of the screen are the rows of the roll from `top` on, followed by blank ones. */
    ghost predicate Shows(r: Roll, top: nat)
      requires video.Length == WIDTH * HEIGHT && Proper(r)
      reads video
    {
      forall y, x :: 0 <= y < HEIGHT && 0 <= x < WIDTH ==> video[y * WIDTH + x] == Shown(r, top, y, x)
    }

    constructor (video: array<int>)
      requires video.Length == WIDTH * HEIGHT
      ensures this.video == video
    {
      this.video := video;
      cursorX, cursorY := 0, 0;
      roll := Roll([BlankRow()], 0);
    }

    method Clear()
      requires video.Length == WIDTH * HEIGHT
      modifies this, video
      ensures Valid() && roll == Roll([BlankRow()], 0)
      ensures cursorX == cursorY == 0 && forall k :: 0 <= k < 2000 ==> video[k] == 0x0f20
    {
      for i := 0 to WIDTH * HEIGHT
        invariant forall k :: 0 <= k < i ==> video[k] == BLANK
      {
        video[i] := BLANK;
      }
      cursorX, cursorY := 0, 0;
      roll := Roll([BlankRow()], 0);
    }

    method Scroll()
      requires video.Length == WIDTH * HEIGHT
      modifies this`cursorY, video
      ensures old(cursorY) < HEIGHT ==> cursorY == old(cursorY) && video[..] == old(video[..])
      ensures old(cursorY) >= HEIGHT ==>
                && cursorY == HEIGHT - 1
                && video[..] == old(video[..])[WIDTH..] + BlankRow()
    {
      if cursorY >= HEIGHT {
        ghost var before := video[..];
        for i := 0 to (HEIGHT - 1) * WIDTH
          invariant forall k :: 0 <= k < i ==> video[k] == before[k + WIDTH]
          invariant forall k :: i <= k < WIDTH * HEIGHT ==> video[k] == before[k]
        {
          video[i] := video[i + WIDTH];
        }
        for i := (HEIGHT - 1) * WIDTH to HEIGHT * WIDTH
          invariant forall k :: 0 <= k < (HEIGHT - 1) * WIDTH ==> video[k] == before[k + WIDTH]
          invariant forall k :: (HEIGHT - 1) * WIDTH <= k < i ==> video[k] == BLANK
        {
          video[i] := BLANK;
        }
        cursorY := HEIGHT - 1;
      }
    }

    /** One character into the cell under the cursor. */
    method Store(c: Char)
      requires Valid() && c >= SPACE
      modifies video, this`roll
      ensures Proper(roll) && |roll.rows| == |old(roll.rows)|
      ensures var last := |roll.rows| - 1;
              && roll == old(roll).(rows := old(roll.rows)[last := roll.rows[last]])
              && roll.rows[last] == old(roll.rows)[last][roll.x := Cell(c)]
      ensures Shows(roll, TopRow(roll))
      ensures video[..] == old(video[..])[cursorY * 80 + cursorX := 0x0f * 256 + c as int]
    {
      ghost var before, r, last := video[..], roll, |roll.rows| - 1;
      video[cursorY * WIDTH + cursorX] := Cell(c);
      roll := roll.(rows := roll.rows[last := roll.rows[last][roll.x := Cell(c)]]);
      forall y, x | 0 <= y < HEIGHT && 0 <= x < WIDTH
        ensures video[y * WIDTH + x] == Shown(roll, TopRow(roll), y, x)
      {
        assert before[y * WIDTH + x] == Shown(r, TopRow(r), y, x);
        assert y * WIDTH + x == cursorY * WIDTH + cursorX <==> y == cursorY && x == cursorX;
      }
    }

    /** The scroll that keeps the cursor's row on the screen. */
    method Follow(ghost top: nat)
      requires video.Length == WIDTH * HEIGHT && Proper(roll) && cursorX == roll.x
      requires cursorY == |roll.rows| - 1 - top && Shows(roll, top)
      requires top == TopRow(roll) || (cursorY == HEIGHT && roll.rows[|roll.rows| - 1] == BlankRow())
      modifies this`cursorY, video
      ensures Valid()
      ensures old(cursorY) < 25 ==> cursorY == old(cursorY) && video[..] == old(video[..])
      ensures old(cursorY) >= 25 ==> MovedDown(old(video[..]), 24, video[..], cursorY)
    {
      ghost var before := video[..];
      Scroll();
      if top != TopRow(roll) {
        ghost var top' := top + 1;
        forall y, x | 0 <= y < HEIGHT && 0 <= x < WIDTH
          ensures video[y * WIDTH + x] == Shown(roll, top', y, x)
        {
          if y < HEIGHT - 1 {
            assert before[(y + 1) * WIDTH + x] == Shown(roll, top, y + 1, x);
            assert video[..][y * WIDTH + x] == before[(y + 1) * WIDTH + x];
          } else {
            assert video[..][y * WIDTH + x] == BlankRow()[x];
          }
        }
      }
    }

    /** The character and the cursor, before any scrolling. */
    method Place(c: Char, ghost top: nat)
      requires Valid() && top == TopRow(roll)
      modifies this, video
      ensures Proper(roll) && cursorX == roll.x && roll == Typed(old(roll), c)
      ensures cursorY == |roll.rows| - 1 - top && Shows(roll, top)
      ensures top == TopRow(roll) || (cursorY == HEIGHT && roll.rows[|roll.rows| - 1] == BlankRow())
      ensures CharacterPlaced(c, old(video[..]), old(cursorX), old(cursorY), video[..], cursorX, cursorY)
    {
      hide BlankRow, Shows;
      if c == BACKSPACE && cursorX > 0 {
        cursorX := cursorX - 1;
      } else if c == TAB {
        cursorX := cursorX + 8 - (cursorX + 8) % 8;
      } else if c == RETURN {
        cursorX := 0;
      } else if c == NEWLINE {
        cursorX := 0;
        cursorY := cursorY + 1;
        ShowsNewRow(roll, top);
        roll := NewRow(roll);
      } else if c >= SPACE {
        Store(c);
        cursorX := cursorX + 1;
      }
      if cursorX >= WIDTH {
        cursorX := 0;
        cursorY := cursorY + 1;
        ShowsNewRow(roll, top);
        roll := NewRow(roll);
      }
      ShowsMoved(roll, top, cursorX);
      roll := roll.(x := cursorX);
    }

    method Put(c: Char)
      requires Valid()
      modifies this, video
      ensures Valid() && roll == Typed(old(roll), c)
      ensures CharacterShown(c, old(video[..]), old(cursorX), old(cursorY), video[..], cursorX, cursorY)
    {
      hide BlankRow, Typed, Shows;
      ghost var top := TopRow(roll);
      Place(c, top);
      Follow(top);
    }

    lemma ShowsMoved(r: Roll, top: nat, x': nat)
      requires video.Length == WIDTH * HEIGHT && Proper(r) && x' < WIDTH && Shows(r, top)
      ensures Shows(r.(x := x'), top)
    {
      forall y, x | 0 <= y < HEIGHT && 0 <= x < WIDTH
        ensures video[y * WIDTH + x] == Shown(r.(x := x'), top, y, x)
      {
        assert video[y * WIDTH + x] == Shown(r, top, y, x);
      }
    }

    lemma ShowsNewRow(r: Roll, top: nat)
      requires video.Length == WIDTH * HEIGHT && Proper(r) && Shows(r, top)
      ensures Shows(NewRow(r), top)
    {
      forall y, x | 0 <= y < HEIGHT && 0 <= x < WIDTH
        ensures video[y * WIDTH + x] == Shown(NewRow(r), top, y, x)
      {
        assert video[y * WIDTH + x] == Shown(r, top, y, x);
      }
    }

    /** Characters up to the terminating zero. */
    method Write(text: seq<Char>)
      requires Valid() && exists n :: 0 <= n < |text| && text[n] == 0
      modifies this, video
      ensures Valid()
      ensures exists n :: 0 <= n < |text| && text[n] == 0 && (forall k :: 0 <= k < n ==> text[k] != 0)
                          && roll == TypedAll(old(roll), text[..n])
    {
      var i := 0;
      while text[i] != 0
        invariant Valid()
        invariant 0 <= i < |text| && forall k :: 0 <= k < i ==> text[k] != 0
        invariant roll == TypedAll(old(roll), text[..i])
        decreases |text| - i
      {
        assert text[..i + 1][..i] == text[..i];
        Put(text[i]);
        i := i + 1;
      }
    }
  }
}
