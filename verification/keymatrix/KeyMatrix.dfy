/** The keyboard matrix by position: every place has a key in the table. */
module KeyMatrix {
  import opened KeyList

  /** The keycaps of a matrix row, by column. */
  function Caps(row: nat): seq<string> {
    if row == 0 then ["DEL", "RETURN", "CRSRLR", "F7", "F1", "F3", "F5", "CRSRUD"]
    else if row == 1 then ["3", "W", "A", "4", "Z", "S", "E", "LSHIFT"]
    else if row == 2 then ["5", "R", "D", "6", "C", "F", "T", "X"]
    else if row == 3 then ["7", "Y", "G", "8", "B", "H", "U", "V"]
    else if row == 4 then ["9", "I", "J", "0", "M", "K", "O", "N"]
    else if row == 5 then ["PLUS", "P", "L", "MINUS", "PERIOD", "COLON", "AT", "COMMA"]
    else if row == 6 then ["POUND", "ASTERISK", "SEMICOLON", "CLRHOME", "RSHIFT", "EQUALS", "UPARROW", "SLASH"]
    else ["1", "LEFTARROW", "CTRL", "2", "SPACE", "CBM", "Q", "RUNSTOP"]
  }

  ghost predicate Named(table: seq<Key>, row: int, col: int, name: string) {
    exists i :: 0 <= i < |table| && table[i] == Key(row, col, 0, name)
  }

  ghost predicate RowNamed(table: seq<Key>, row: nat) {
    |Caps(row)| == 8 && forall col :: 0 <= col < 8 ==> Named(table, row, col, Caps(row)[col])
  }

  lemma Row0Named()
    ensures RowNamed(ROW0, 0)
  {
    assert ROW0[1] == Key(0, 0, 0, Caps(0)[0]) && ROW0[5] == Key(0, 1, 0, Caps(0)[1]) && ROW0[8] == Key(0, 2, 0, Caps(0)[2]) && ROW0[11] == Key(0, 3, 0, Caps(0)[3]);
    assert ROW0[12] == Key(0, 4, 0, Caps(0)[4]) && ROW0[13] == Key(0, 5, 0, Caps(0)[5]) && ROW0[14] == Key(0, 6, 0, Caps(0)[6]) && ROW0[15] == Key(0, 7, 0, Caps(0)[7]);
  }

  lemma Row1Named()
    ensures RowNamed(ROW1, 1)
  {
    assert ROW1[0] == Key(1, 0, 0, Caps(1)[0]) && ROW1[1] == Key(1, 1, 0, Caps(1)[1]) && ROW1[2] == Key(1, 2, 0, Caps(1)[2]) && ROW1[3] == Key(1, 3, 0, Caps(1)[3]);
    assert ROW1[4] == Key(1, 4, 0, Caps(1)[4]) && ROW1[5] == Key(1, 5, 0, Caps(1)[5]) && ROW1[6] == Key(1, 6, 0, Caps(1)[6]) && ROW1[7] == Key(1, 7, 0, Caps(1)[7]);
  }

  lemma Row2Named()
    ensures RowNamed(ROW2, 2)
  {
    assert ROW2[0] == Key(2, 0, 0, Caps(2)[0]) && ROW2[1] == Key(2, 1, 0, Caps(2)[1]) && ROW2[2] == Key(2, 2, 0, Caps(2)[2]) && ROW2[3] == Key(2, 3, 0, Caps(2)[3]);
    assert ROW2[4] == Key(2, 4, 0, Caps(2)[4]) && ROW2[5] == Key(2, 5, 0, Caps(2)[5]) && ROW2[6] == Key(2, 6, 0, Caps(2)[6]) && ROW2[7] == Key(2, 7, 0, Caps(2)[7]);
  }

  lemma Row3Named()
    ensures RowNamed(ROW3, 3)
  {
    assert ROW3[0] == Key(3, 0, 0, Caps(3)[0]) && ROW3[1] == Key(3, 1, 0, Caps(3)[1]) && ROW3[2] == Key(3, 2, 0, Caps(3)[2]) && ROW3[3] == Key(3, 3, 0, Caps(3)[3]);
    assert ROW3[4] == Key(3, 4, 0, Caps(3)[4]) && ROW3[5] == Key(3, 5, 0, Caps(3)[5]) && ROW3[6] == Key(3, 6, 0, Caps(3)[6]) && ROW3[7] == Key(3, 7, 0, Caps(3)[7]);
  }

  lemma Row4Named()
    ensures RowNamed(ROW4, 4)
  {
    assert ROW4[0] == Key(4, 0, 0, Caps(4)[0]) && ROW4[1] == Key(4, 1, 0, Caps(4)[1]) && ROW4[2] == Key(4, 2, 0, Caps(4)[2]) && ROW4[3] == Key(4, 3, 0, Caps(4)[3]);
    assert ROW4[4] == Key(4, 4, 0, Caps(4)[4]) && ROW4[5] == Key(4, 5, 0, Caps(4)[5]) && ROW4[6] == Key(4, 6, 0, Caps(4)[6]) && ROW4[7] == Key(4, 7, 0, Caps(4)[7]);
  }

  lemma Row5Named()
    ensures RowNamed(ROW5, 5)
  {
    assert ROW5[0] == Key(5, 0, 0, Caps(5)[0]) && ROW5[1] == Key(5, 1, 0, Caps(5)[1]) && ROW5[2] == Key(5, 2, 0, Caps(5)[2]) && ROW5[3] == Key(5, 3, 0, Caps(5)[3]);
    assert ROW5[4] == Key(5, 4, 0, Caps(5)[4]) && ROW5[6] == Key(5, 5, 0, Caps(5)[5]) && ROW5[7] == Key(5, 6, 0, Caps(5)[6]) && ROW5[8] == Key(5, 7, 0, Caps(5)[7]);
  }

  lemma Row6Named()
    ensures RowNamed(ROW6, 6)
  {
    assert ROW6[0] == Key(6, 0, 0, Caps(6)[0]) && ROW6[4] == Key(6, 1, 0, Caps(6)[1]) && ROW6[5] == Key(6, 2, 0, Caps(6)[2]) && ROW6[9] == Key(6, 3, 0, Caps(6)[3]);
    assert ROW6[10] == Key(6, 4, 0, Caps(6)[4]) && ROW6[12] == Key(6, 5, 0, Caps(6)[5]) && ROW6[14] == Key(6, 6, 0, Caps(6)[6]) && ROW6[17] == Key(6, 7, 0, Caps(6)[7]);
  }

  lemma Row7Named()
    ensures RowNamed(ROW7, 7)
  {
    assert ROW7[0] == Key(7, 0, 0, Caps(7)[0]) && ROW7[1] == Key(7, 1, 0, Caps(7)[1]) && ROW7[3] == Key(7, 2, 0, Caps(7)[2]) && ROW7[4] == Key(7, 3, 0, Caps(7)[3]);
    assert ROW7[5] == Key(7, 4, 0, Caps(7)[4]) && ROW7[7] == Key(7, 5, 0, Caps(7)[5]) && ROW7[9] == Key(7, 6, 0, Caps(7)[6]) && ROW7[10] == Key(7, 7, 0, Caps(7)[7]);
  }

  lemma NamedInMore(table: seq<Key>, all: seq<Key>, at: nat, row: int, col: int, name: string)
    requires at + |table| <= |all| && all[at..at + |table|] == table && Named(table, row, col, name)
    ensures Named(all, row, col, name)
  {
    var i :| 0 <= i < |table| && table[i] == Key(row, col, 0, name);
    assert all[at + i] == all[at..at + |table|][i];
  }

  lemma RowInMore(table: seq<Key>, all: seq<Key>, at: nat, row: nat)
    requires RowNamed(table, row) && at + |table| <= |all| && all[at..at + |table|] == table
    ensures RowNamed(all, row)
  {
    forall col | 0 <= col < 8 ensures Named(all, row, col, Caps(row)[col]) {
      NamedInMore(table, all, at, row, col, Caps(row)[col]);
    }
  }

  /** Where the row starts in the table. */
  function Start(row: nat): nat {
    if row == 0 then 0 else if row == 1 then 18 else if row == 2 then 28 else if row == 3 then 36
    else if row == 4 then 44 else if row == 5 then 52 else if row == 6 then 61 else 79
  }

  lemma Row0Place()
    ensures |KEYS| == 96 && KEYS[Start(0)..Start(0) + |ROW0|] == ROW0
  {
  }

  lemma Row1Place()
    ensures |KEYS| == 96 && KEYS[Start(1)..Start(1) + |ROW1|] == ROW1
  {
  }

  lemma Row2Place()
    ensures |KEYS| == 96 && KEYS[Start(2)..Start(2) + |ROW2|] == ROW2
  {
  }

  lemma Row3Place()
    ensures |KEYS| == 96 && KEYS[Start(3)..Start(3) + |ROW3|] == ROW3
  {
  }

  lemma Row4Place()
    ensures |KEYS| == 96 && KEYS[Start(4)..Start(4) + |ROW4|] == ROW4
  {
  }

  lemma Row5Place()
    ensures |KEYS| == 96 && KEYS[Start(5)..Start(5) + |ROW5|] == ROW5
  {
  }

  lemma Row6Place()
    ensures |KEYS| == 96 && KEYS[Start(6)..Start(6) + |ROW6|] == ROW6
  {
  }

  lemma Row7Place()
    ensures |KEYS| == 96 && KEYS[Start(7)..Start(7) + |ROW7|] == ROW7
  {
  }

  /** Every place of the matrix can be named by its keycap. */
  lemma EveryPlaceNamed(row: nat)
    requires row < 8
    ensures RowNamed(KEYS, row)
  {
    if row == 0 {
      Row0Named();
      Row0Place();
      RowInMore(ROW0, KEYS, Start(0), 0);
    } else if row == 1 {
      Row1Named();
      Row1Place();
      RowInMore(ROW1, KEYS, Start(1), 1);
    } else if row == 2 {
      Row2Named();
      Row2Place();
      RowInMore(ROW2, KEYS, Start(2), 2);
    } else if row == 3 {
      Row3Named();
      Row3Place();
      RowInMore(ROW3, KEYS, Start(3), 3);
    } else if row == 4 {
      Row4Named();
      Row4Place();
      RowInMore(ROW4, KEYS, Start(4), 4);
    } else if row == 5 {
      Row5Named();
      Row5Place();
      RowInMore(ROW5, KEYS, Start(5), 5);
    } else if row == 6 {
      Row6Named();
      Row6Place();
      RowInMore(ROW6, KEYS, Start(6), 6);
    } else {
      Row7Named();
      Row7Place();
      RowInMore(ROW7, KEYS, Start(7), 7);
    }
  }
}
