/** Counting the places where a word is written in a rectangular grid of
    letters: every start cell and every one of eight directions whose cells
    spell the word counts once. */
module WordSearch {
  import opened Wrappers
  import opened Collections

  /** The word searched for when the caller names none. */
  const DefaultTarget: seq<char> := "XMAS"

  /** The eight directions in the order they are tried: forward, the two
      forward diagonals, backward, the two backward diagonals, down, up.
      Direction `d` moves `RowSteps[d]` rows and `ColSteps[d]` columns. */
  const RowSteps: seq<int> := [0, 1, -1, 0, 1, -1, 1, -1]
  const ColSteps: seq<int> := [1, 1, 1, -1, -1, -1, 0, 0]

  /** The direction opposite `d`. */
  const Opposite: seq<int> := [3, 5, 4, 0, 2, 1, 7, 6]

  predicate IsDirection(d: int)
  {
    0 <= d < 8
  }

  /** The row or column `k` cells away along a step of -1, 0 or 1. */
  function Offset(k: int, step: int): int
  {
    if step == 1 then k else if step == -1 then -k else 0
  }

  /** The grid every row of which is as wide as the first. */
  predicate Rectangular(grid: seq<seq<char>>)
  {
    |grid| > 0 && forall i :: 0 <= i < |grid| ==> |grid[i]| == |grid[0]|
  }

  function CellAt(grid: seq<seq<char>>, i: int, j: int): Option<char>
  {
    if 0 <= i < |grid| && 0 <= j < |grid[i]| then Some(grid[i][j]) else None
  }

  /** Letters `k` onwards of the word are written from (i, j) in direction
      `d`, letter `x` on the cell `x` steps away. */
  predicate SpellsFrom(grid: seq<seq<char>>, word: seq<char>, i: int, j: int, d: int, k: nat)
    requires IsDirection(d)
    decreases |word| - k
  {
    k >= |word|
    || (CellAt(grid, i + Offset(k, RowSteps[d]), j + Offset(k, ColSteps[d])) == Some(word[k])
        && SpellsFrom(grid, word, i, j, d, k + 1))
  }

  /** The word is written from (i, j) in direction `d`. */
  predicate Spells(grid: seq<seq<char>>, word: seq<char>, i: int, j: int, d: int)
    requires IsDirection(d)
  {
    SpellsFrom(grid, word, i, j, d, 0)
  }

  lemma {:induction false} SpellsFromAt(grid: seq<seq<char>>, word: seq<char>, i: int, j: int, d: int, k: nat)
    requires IsDirection(d)
    ensures SpellsFrom(grid, word, i, j, d, k) <==>
      forall x :: k <= x < |word| ==> CellAt(grid, i + Offset(x, RowSteps[d]), j + Offset(x, ColSteps[d])) == Some(word[x])
    decreases |word| - k
  {
    if k < |word| {
      SpellsFromAt(grid, word, i, j, d, k + 1);
    }
  }

  /** Spelling, letter by letter: every letter of the word sits on the cell
      its position in the word says. */
  lemma SpellsAt(grid: seq<seq<char>>, word: seq<char>, i: int, j: int, d: int)
    requires IsDirection(d)
    ensures Spells(grid, word, i, j, d) <==>
      forall x :: 0 <= x < |word| ==> CellAt(grid, i + Offset(x, RowSteps[d]), j + Offset(x, ColSteps[d])) == Some(word[x])
  {
    SpellsFromAt(grid, word, i, j, d, 0);
  }

  /** The last of `len` cells from (i, j) in direction `d` is in the grid:
      the bounds test made before each direction is read. */
  predicate EndInGrid(grid: seq<seq<char>>, i: int, j: int, d: int, len: nat)
    requires Rectangular(grid) && IsDirection(d) && len > 0
  {
    0 <= i + Offset(len - 1, RowSteps[d]) < |grid| && 0 <= j + Offset(len - 1, ColSteps[d]) < |grid[0]|
  }

  /** The `len` letters read from (i, j) in direction `d`. */
  function Read(grid: seq<seq<char>>, i: int, j: int, d: int, len: nat): (r: seq<char>)
    requires Rectangular(grid) && IsDirection(d) && len > 0
    requires 0 <= i < |grid| && 0 <= j < |grid[0]| && EndInGrid(grid, i, j, d, len)
    ensures |r| == len
    ensures forall k :: 0 <= k < len ==>
      CellAt(grid, i + Offset(k, RowSteps[d]), j + Offset(k, ColSteps[d])) == Some(r[k])
  {
    seq(len, x requires 0 <= x < len => grid[i + Offset(x, RowSteps[d])][j + Offset(x, ColSteps[d])])
  }

  /** Reading a direction whose cells are all in the grid finds the word
      exactly when the word is written there; a direction that runs off
      the grid never holds it. */
  lemma ReadSpells(grid: seq<seq<char>>, word: seq<char>, i: int, j: int, d: int)
    requires Rectangular(grid) && IsDirection(d) && |word| > 0
    requires 0 <= i < |grid| && 0 <= j < |grid[0]|
    ensures EndInGrid(grid, i, j, d, |word|) ==> (Read(grid, i, j, d, |word|) == word <==> Spells(grid, word, i, j, d))
    ensures !EndInGrid(grid, i, j, d, |word|) ==> !Spells(grid, word, i, j, d)
  {
    SpellsAt(grid, word, i, j, d);
    if EndInGrid(grid, i, j, d, |word|) {
      var r := Read(grid, i, j, d, |word|);
      if Spells(grid, word, i, j, d) {
        assert forall k :: 0 <= k < |word| ==> r[k] == word[k];
      }
    } else {
      var k := |word| - 1;
      assert CellAt(grid, i + Offset(k, RowSteps[d]), j + Offset(k, ColSteps[d])).None?;
    }
  }

  /** The matches starting at (i, j) among the first `n` directions. */
  function DirMatches(grid: seq<seq<char>>, word: seq<char>, i: int, j: int, n: nat): set<(int, int, int)>
    requires n <= 8
  {
    set d | 0 <= d < n && Spells(grid, word, i, j, d) :: (i, j, d)
  }

  /** How many of the first `n` directions spell the word from (i, j). */
  function CountDirs(grid: seq<seq<char>>, word: seq<char>, i: int, j: int, n: nat): nat
    requires n <= 8
  {
    if n == 0 then 0
    else CountDirs(grid, word, i, j, n - 1) + Hit(grid, word, i, j, n - 1)
  }

  /** Trying one more direction adds its match, if it spells the word. */
  lemma DirMatchesStep(grid: seq<seq<char>>, word: seq<char>, i: int, j: int, n: nat)
    requires 0 < n <= 8
    ensures (i, j, n - 1) !in DirMatches(grid, word, i, j, n - 1)
    ensures DirMatches(grid, word, i, j, n)
         == DirMatches(grid, word, i, j, n - 1) + (if Hit(grid, word, i, j, n - 1) == 1 then {(i, j, n - 1)} else {})
  {
  }

  lemma {:induction false} CountDirsIsSize(grid: seq<seq<char>>, word: seq<char>, i: int, j: int, n: nat)
    requires n <= 8
    ensures |DirMatches(grid, word, i, j, n)| == CountDirs(grid, word, i, j, n) <= n
  {
    if n > 0 {
      CountDirsIsSize(grid, word, i, j, n - 1);
      DirMatchesStep(grid, word, i, j, n);
    }
  }

  /** 1 when the word is written from (i, j) in direction `d`, else 0. */
  function Hit(grid: seq<seq<char>>, word: seq<char>, i: int, j: int, d: int): nat
    requires IsDirection(d)
  {
    if Spells(grid, word, i, j, d) then 1 else 0
  }

  /** One bounds-checked direction: join the letters read and compare them
      with the word. */
  method ReadDirection(searchMap: seq<seq<char>>, targetWord: seq<char>, iRow: nat, jCol: nat, d: int)
    returns (hit: nat)
    requires Rectangular(searchMap) && |targetWord| > 0 && IsDirection(d)
    requires iRow < |searchMap| && jCol < |searchMap[0]| && EndInGrid(searchMap, iRow, jCol, d, |targetWord|)
    ensures hit == Hit(searchMap, targetWord, iRow, jCol, d)
  {
    var word := Read(searchMap, iRow, jCol, d, |targetWord|);
    ReadSpells(searchMap, targetWord, iRow, jCol, d);
    hit := if word == targetWord then 1 else 0;
  }

  /** The bounds test written for each direction is the test that the
      last cell read is in the grid. */
  lemma BoundsTests(grid: seq<seq<char>>, i: int, j: int, len: nat)
    requires Rectangular(grid) && len > 0 && 0 <= i < |grid| && 0 <= j < |grid[0]|
    ensures EndInGrid(grid, i, j, 0, len) <==> j + len <= |grid[0]|
    ensures EndInGrid(grid, i, j, 1, len) <==> j + len <= |grid[0]| && i + len <= |grid|
    ensures EndInGrid(grid, i, j, 2, len) <==> j + len <= |grid[0]| && i - len + 1 >= 0
    ensures EndInGrid(grid, i, j, 3, len) <==> j - len + 1 >= 0
    ensures EndInGrid(grid, i, j, 4, len) <==> j - len + 1 >= 0 && i + len <= |grid|
    ensures EndInGrid(grid, i, j, 5, len) <==> j - len + 1 >= 0 && i - len + 1 >= 0
    ensures EndInGrid(grid, i, j, 6, len) <==> i + len <= |grid|
    ensures EndInGrid(grid, i, j, 7, len) <==> i - len + 1 >= 0
  {
  }

  /** The eight bounds-guarded reads made at one start cell whose letter is
      the first of the word. */
  method CountAtCell(searchMap: seq<seq<char>>, targetWord: seq<char>, iRow: nat, jCol: nat) returns (count: nat)
    requires Rectangular(searchMap) && |targetWord| > 0
    requires iRow < |searchMap| && jCol < |searchMap[0]|
    ensures count == |DirMatches(searchMap, targetWord, iRow, jCol, 8)|
  {
    var wordLength := |targetWord|;
    var nRows, nCols := |searchMap|, |searchMap[0]|;
    BoundsTests(searchMap, iRow, jCol, wordLength);
    count := 0;
    if jCol + wordLength <= nCols {
      var hit := ReadDirection(searchMap, targetWord, iRow, jCol, 0);
      count := count + hit;
      if iRow + wordLength <= nRows {
        hit := ReadDirection(searchMap, targetWord, iRow, jCol, 1);
        count := count + hit;
      }
      if iRow - wordLength + 1 >= 0 {
        hit := ReadDirection(searchMap, targetWord, iRow, jCol, 2);
        count := count + hit;
      }
    }
    if jCol - wordLength + 1 >= 0 {
      var hit := ReadDirection(searchMap, targetWord, iRow, jCol, 3);
      count := count + hit;
      if iRow + wordLength <= nRows {
        hit := ReadDirection(searchMap, targetWord, iRow, jCol, 4);
        count := count + hit;
      }
      if iRow - wordLength + 1 >= 0 {
        hit := ReadDirection(searchMap, targetWord, iRow, jCol, 5);
        count := count + hit;
      }
    }
    if iRow + wordLength <= nRows {
      var hit := ReadDirection(searchMap, targetWord, iRow, jCol, 6);
      count := count + hit;
    }
    if iRow - wordLength + 1 >= 0 {
      var hit := ReadDirection(searchMap, targetWord, iRow, jCol, 7);
      count := count + hit;
    }
    forall d | IsDirection(d) && !EndInGrid(searchMap, iRow, jCol, d, wordLength)
      ensures Hit(searchMap, targetWord, iRow, jCol, d) == 0
    {
      ReadSpells(searchMap, targetWord, iRow, jCol, d);
    }
    CountDirsIsSize(searchMap, targetWord, iRow, jCol, 8);
    CountDirsUnrolled(searchMap, targetWord, iRow, jCol);
  }

  lemma CountDirsUnrolled(grid: seq<seq<char>>, word: seq<char>, i: int, j: int)
    ensures CountDirs(grid, word, i, j, 8)
         == Hit(grid, word, i, j, 0) + Hit(grid, word, i, j, 1) + Hit(grid, word, i, j, 2) + Hit(grid, word, i, j, 3)
          + Hit(grid, word, i, j, 4) + Hit(grid, word, i, j, 5) + Hit(grid, word, i, j, 6) + Hit(grid, word, i, j, 7)
  {
    assert CountDirs(grid, word, i, j, 1) == Hit(grid, word, i, j, 0);
    assert CountDirs(grid, word, i, j, 2) == CountDirs(grid, word, i, j, 1) + Hit(grid, word, i, j, 1);
    assert CountDirs(grid, word, i, j, 3) == CountDirs(grid, word, i, j, 2) + Hit(grid, word, i, j, 2);
    assert CountDirs(grid, word, i, j, 4) == CountDirs(grid, word, i, j, 3) + Hit(grid, word, i, j, 3);
    assert CountDirs(grid, word, i, j, 5) == CountDirs(grid, word, i, j, 4) + Hit(grid, word, i, j, 4);
    assert CountDirs(grid, word, i, j, 6) == CountDirs(grid, word, i, j, 5) + Hit(grid, word, i, j, 5);
    assert CountDirs(grid, word, i, j, 7) == CountDirs(grid, word, i, j, 6) + Hit(grid, word, i, j, 6);
  }

  /** The matches whose start cell comes before (i, j) in row-major order. */
  function MatchesBefore(grid: seq<seq<char>>, word: seq<char>, i: int, j: int): set<(int, int, int)>
    requires Rectangular(grid)
  {
    set a, b, d | 0 <= a < |grid| && 0 <= b < |grid[0]| && 0 <= d < 8
                  && (a < i || (a == i && b < j)) && Spells(grid, word, a, b, d) :: (a, b, d)
  }

  /** Every (start cell, direction) pair that spells the word. */
  function MatchSet(grid: seq<seq<char>>, word: seq<char>): set<(int, int, int)>
    requires Rectangular(grid)
  {
    MatchesBefore(grid, word, |grid|, 0)
  }

  lemma InMatchesBefore(grid: seq<seq<char>>, word: seq<char>, i: int, j: int, t: (int, int, int))
    requires Rectangular(grid)
    ensures t in MatchesBefore(grid, word, i, j)
        <==> 0 <= t.0 < |grid| && 0 <= t.1 < |grid[0]| && IsDirection(t.2)
             && (t.0 < i || (t.0 == i && t.1 < j)) && Spells(grid, word, t.0, t.1, t.2)
  {
    if 0 <= t.0 < |grid| && 0 <= t.1 < |grid[0]| && IsDirection(t.2)
       && (t.0 < i || (t.0 == i && t.1 < j)) && Spells(grid, word, t.0, t.1, t.2) {
      var (a, b, d) := t;
      assert (a, b, d) in MatchesBefore(grid, word, i, j);
    }
  }

  /** Moving one cell on in row-major order adds that cell's matches. */
  lemma MatchesBeforeStep(grid: seq<seq<char>>, word: seq<char>, i: int, j: int)
    requires Rectangular(grid) && 0 <= i < |grid| && 0 <= j < |grid[0]|
    ensures |MatchesBefore(grid, word, i, j + 1)|
         == |MatchesBefore(grid, word, i, j)| + |DirMatches(grid, word, i, j, 8)|
  {
    var before, here := MatchesBefore(grid, word, i, j), DirMatches(grid, word, i, j, 8);
    var after := MatchesBefore(grid, word, i, j + 1);
    forall t | t in after ensures t in before + here {
      InMatchesBefore(grid, word, i, j + 1, t);
      InMatchesBefore(grid, word, i, j, t);
      if t.0 == i && t.1 == j {
        assert t == (i, j, t.2);
      }
    }
    forall t | t in before + here ensures t in after {
      InMatchesBefore(grid, word, i, j + 1, t);
      InMatchesBefore(grid, word, i, j, t);
    }
    assert after == before + here;
    forall t | t in here ensures t !in before {
      InMatchesBefore(grid, word, i, j, t);
    }
    assert before * here == {};
  }

  /** The end of a row is the start of the next. */
  lemma MatchesBeforeNextRow(grid: seq<seq<char>>, word: seq<char>, i: int)
    requires Rectangular(grid)
    ensures MatchesBefore(grid, word, i + 1, 0) == MatchesBefore(grid, word, i, |grid[0]|)
  {
  }

  /** A start cell whose letter is not the word's first holds no match. */
  lemma NoMatchesWithoutFirstLetter(grid: seq<seq<char>>, word: seq<char>, i: int, j: int)
    requires |word| > 0 && CellAt(grid, i, j) != Some(word[0])
    ensures DirMatches(grid, word, i, j, 8) == {}
  {
    forall d | 0 <= d < 8 ensures !Spells(grid, word, i, j, d) {
      assert CellAt(grid, i + Offset(0, RowSteps[d]), j + Offset(0, ColSteps[d])) != Some(word[0]);
    }
  }

  /** find_count_target_word: the number of (start cell, direction) pairs
      spelling the word; none when the word is empty and the grid has a
      cell, where the first-letter test fails. */
  method FindCountTargetWord(searchMap: seq<seq<char>>, targetWord: seq<char> := DefaultTarget)
    returns (count: Option<nat>)
    requires Rectangular(searchMap)
    ensures count.None? <==> |targetWord| == 0 && |searchMap[0]| > 0
    ensures count.Some? ==> count.value == |MatchSet(searchMap, targetWord)|
  {
    var nCols, nRows := |searchMap[0]|, |searchMap|;
    var total := 0;
    for iRow := 0 to nRows
      invariant total == |MatchesBefore(searchMap, targetWord, iRow, 0)|
      invariant nCols > 0 ==> |targetWord| > 0 || iRow == 0
    {
      for jCol := 0 to nCols
        invariant total == |MatchesBefore(searchMap, targetWord, iRow, jCol)|
        invariant jCol > 0 ==> |targetWord| > 0
      {
        if |targetWord| == 0 {
          return None;
        }
        MatchesBeforeStep(searchMap, targetWord, iRow, jCol);
        if searchMap[iRow][jCol] != targetWord[0] {
          NoMatchesWithoutFirstLetter(searchMap, targetWord, iRow, jCol);
          continue;
        }
        var n := CountAtCell(searchMap, targetWord, iRow, jCol);
        total := total + n;
      }
      MatchesBeforeNextRow(searchMap, targetWord, iRow);
    }
    return Some(total);
  }

  lemma {:induction false} NoFirstLetterNoMatchBefore(grid: seq<seq<char>>, word: seq<char>, i: nat, j: nat)
    requires Rectangular(grid) && |word| > 0 && j <= |grid[0]| && (i < |grid| || (i == |grid| && j == 0))
    requires forall a, b :: 0 <= a < |grid| && 0 <= b < |grid[0]| ==> grid[a][b] != word[0]
    ensures |MatchesBefore(grid, word, i, j)| == 0
    decreases i, j
  {
    if j > 0 {
      NoFirstLetterNoMatchBefore(grid, word, i, j - 1);
      MatchesBeforeStep(grid, word, i, j - 1);
      NoMatchesWithoutFirstLetter(grid, word, i, j - 1);
    } else if i > 0 {
      NoFirstLetterNoMatchBefore(grid, word, i - 1, |grid[0]|);
      MatchesBeforeNextRow(grid, word, i - 1);
    } else {
      MatchesBeforeNone(grid, word);
    }
  }

  /** Nothing comes before the first cell. */
  lemma MatchesBeforeNone(grid: seq<seq<char>>, word: seq<char>)
    requires Rectangular(grid)
    ensures MatchesBefore(grid, word, 0, 0) == {}
  {
    forall t ensures t !in MatchesBefore(grid, word, 0, 0) {
      InMatchesBefore(grid, word, 0, 0, t);
    }
  }

  /** No cell holding the first letter means no match at all. */
  lemma NoFirstLetterNoMatch(grid: seq<seq<char>>, word: seq<char>)
    requires Rectangular(grid) && |word| > 0
    requires forall i, j :: 0 <= i < |grid| && 0 <= j < |grid[0]| ==> grid[i][j] != word[0]
    ensures |MatchSet(grid, word)| == 0
  {
    NoFirstLetterNoMatchBefore(grid, word, |grid|, 0);
  }

  /** Each start cell contributes at most eight matches. */
  lemma {:induction false} MatchesBeforeBound(grid: seq<seq<char>>, word: seq<char>, i: nat, j: nat)
    requires Rectangular(grid) && j <= |grid[0]| && (i < |grid| || (i == |grid| && j == 0))
    ensures |MatchesBefore(grid, word, i, j)| <= 8 * (i * |grid[0]| + j)
    decreases i, j
  {
    if j > 0 {
      MatchesBeforeBound(grid, word, i, j - 1);
      MatchesBeforeStep(grid, word, i, j - 1);
      CountDirsIsSize(grid, word, i, j - 1, 8);
    } else if i > 0 {
      MatchesBeforeBound(grid, word, i - 1, |grid[0]|);
      MatchesBeforeNextRow(grid, word, i - 1);
      assert (i - 1) * |grid[0]| + |grid[0]| == i * |grid[0]|;
    }
  }

  lemma MatchSetBound(grid: seq<seq<char>>, word: seq<char>)
    requires Rectangular(grid)
    ensures |MatchSet(grid, word)| <= 8 * |grid| * |grid[0]|
  {
    MatchesBeforeBound(grid, word, |grid|, 0);
  }

  lemma {:induction false} OneLetterCountDirs(grid: seq<seq<char>>, word: seq<char>, i: int, j: int, n: nat)
    requires |word| == 1 && n <= 8
    ensures CountDirs(grid, word, i, j, n) == if CellAt(grid, i, j) == Some(word[0]) then n else 0
  {
    if n > 0 {
      OneLetterCountDirs(grid, word, i, j, n - 1);
      assert Offset(0, RowSteps[n - 1]) == 0 && Offset(0, ColSteps[n - 1]) == 0;
      assert SpellsFrom(grid, word, i, j, n - 1, 1);
      assert Hit(grid, word, i, j, n - 1) == if CellAt(grid, i, j) == Some(word[0]) then 1 else 0;
    }
  }

  /** A one-letter word is read in every direction from a cell holding
      it, so each such cell is counted eight times. */
  lemma OneLetterCountedEightTimes(grid: seq<seq<char>>, word: seq<char>, i: int, j: int)
    requires |word| == 1
    ensures |DirMatches(grid, word, i, j, 8)| == if CellAt(grid, i, j) == Some(word[0]) then 8 else 0
  {
    CountDirsIsSize(grid, word, i, j, 8);
    OneLetterCountDirs(grid, word, i, j, 8);
  }

  /** The same letters read from the other end: start at the last cell
      and go the opposite way. */
  function Flip(t: (int, int, int), len: nat): (int, int, int)
  {
    if IsDirection(t.2) && len > 0
    then (t.0 + Offset(len - 1, RowSteps[t.2]), t.1 + Offset(len - 1, ColSteps[t.2]), Opposite[t.2])
    else t
  }

  lemma FlipInvolution(t: (int, int, int), len: nat)
    ensures Flip(Flip(t, len), len) == t
  {
  }

  lemma {:induction false} FlipImageSize(s: set<(int, int, int)>, len: nat)
    ensures |set t | t in s :: Flip(t, len)| == |s|
  {
    if s != {} {
      var x :| x in s;
      var rest := s - {x};
      FlipImageSize(rest, len);
      FlipInvolution(x, len);
      assert (set t | t in s :: Flip(t, len)) == (set t | t in rest :: Flip(t, len)) + {Flip(x, len)};
      forall y | y in rest ensures Flip(y, len) != Flip(x, len) {
        FlipInvolution(y, len);
      }
    }
  }

  lemma OppositeSteps(d: int)
    requires IsDirection(d)
    ensures IsDirection(Opposite[d]) && Opposite[Opposite[d]] == d
    ensures RowSteps[Opposite[d]] == -RowSteps[d] && ColSteps[Opposite[d]] == -ColSteps[d]
    ensures -1 <= RowSteps[d] <= 1 && -1 <= ColSteps[d] <= 1
  {
  }

  /** Walking `k` cells back from the end of a `len`-cell run lands on cell
      `len - 1 - k` of the run. */
  lemma OffsetFromEnd(len: nat, k: int, step: int)
    requires len > 0 && -1 <= step <= 1
    ensures Offset(len - 1, step) + Offset(k, -step) == Offset(len - 1 - k, step)
  {
  }

  /** A run of cells spelling the word, read back from its last cell
      (i2, j2) in direction `d2`, whose steps are the opposite ones, spells
      the word's letters in reverse order, `rev`. */
  lemma FlipRun(grid: seq<seq<char>>, word: seq<char>, rev: seq<char>, i: int, j: int, dr: int, dc: int,
                i2: int, j2: int, d2: int)
    requires -1 <= dr <= 1 && -1 <= dc <= 1 && |word| > 0 && IsDirection(d2)
    requires |rev| == |word| && forall k :: 0 <= k < |rev| ==> rev[k] == word[|word| - 1 - k]
    requires i2 == i + Offset(|word| - 1, dr) && j2 == j + Offset(|word| - 1, dc)
    requires RowSteps[d2] == -dr && ColSteps[d2] == -dc
    requires forall x :: 0 <= x < |word| ==> CellAt(grid, i + Offset(x, dr), j + Offset(x, dc)) == Some(word[x])
    ensures Spells(grid, rev, i2, j2, d2)
  {
    var n := |word|;
    forall k | 0 <= k < n
      ensures CellAt(grid, i2 + Offset(k, RowSteps[d2]), j2 + Offset(k, ColSteps[d2])) == Some(rev[k])
    {
      OffsetFromEnd(n, k, dr);
      OffsetFromEnd(n, k, dc);
      assert i2 + Offset(k, RowSteps[d2]) == i + Offset(n - 1 - k, dr);
      assert j2 + Offset(k, ColSteps[d2]) == j + Offset(n - 1 - k, dc);
      assert CellAt(grid, i + Offset(n - 1 - k, dr), j + Offset(n - 1 - k, dc)) == Some(word[n - 1 - k]);
    }
    SpellsAt(grid, rev, i2, j2, d2);
  }

  /** The word written from (i, j) in direction `d` is its reverse
      written from its last cell in the opposite direction. */
  lemma FlipSpells(grid: seq<seq<char>>, word: seq<char>, i: int, j: int, d: int)
    requires IsDirection(d) && |word| > 0 && Spells(grid, word, i, j, d)
    ensures IsDirection(Opposite[d])
    ensures Spells(grid, Reverse(word), i + Offset(|word| - 1, RowSteps[d]), j + Offset(|word| - 1, ColSteps[d]), Opposite[d])
  {
    OppositeSteps(d);
    SpellsAt(grid, word, i, j, d);
    FlipRun(grid, word, Reverse(word), i, j, RowSteps[d], ColSteps[d],
            i + Offset(|word| - 1, RowSteps[d]), j + Offset(|word| - 1, ColSteps[d]), Opposite[d]);
  }

  /** A match of a word, read from its other end, is a match of the
      reversed word. */
  lemma FlipMatches(grid: seq<seq<char>>, word: seq<char>, t: (int, int, int))
    requires Rectangular(grid) && t in MatchSet(grid, word) && |word| > 0
    ensures Flip(t, |word|) in MatchSet(grid, Reverse(word))
  {
    InMatchesBefore(grid, word, |grid|, 0, t);
    FlipSpells(grid, word, t.0, t.1, t.2);
    var u := Flip(t, |word|);
    assert Spells(grid, Reverse(word), u.0, u.1, u.2);
    assert SpellsFrom(grid, Reverse(word), u.0, u.1, u.2, 0);
    assert CellAt(grid, u.0 + Offset(0, RowSteps[u.2]), u.1 + Offset(0, ColSteps[u.2])).Some?;
    InMatchesBefore(grid, Reverse(word), |grid|, 0, u);
  }

  lemma MatchSetFlipSize(grid: seq<seq<char>>, word: seq<char>)
    requires Rectangular(grid)
    ensures |MatchSet(grid, word)| <= |MatchSet(grid, Reverse(word))|
  {
    if |word| > 0 {
      var image := set t | t in MatchSet(grid, word) :: Flip(t, |word|);
      forall u | u in image ensures u in MatchSet(grid, Reverse(word)) {
        var t :| t in MatchSet(grid, word) && u == Flip(t, |word|);
        FlipMatches(grid, word, t);
      }
      FlipImageSize(MatchSet(grid, word), |word|);
      SubsetSize(image, MatchSet(grid, Reverse(word)));
    } else {
      assert Reverse(word) == word;
    }
  }

  /** Reading backwards is one of the eight directions, so a word and its
      reverse are found equally often. */
  lemma ReverseWordSameCount(grid: seq<seq<char>>, word: seq<char>)
    requires Rectangular(grid)
    ensures |MatchSet(grid, Reverse(word))| == |MatchSet(grid, word)|
  {
    MatchSetFlipSize(grid, word);
    MatchSetFlipSize(grid, Reverse(word));
    ReverseReverse(word);
  }
}
