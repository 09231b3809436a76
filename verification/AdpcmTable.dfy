/** The increment table of the YM ADPCM-A voice and what the encoder needs of it. */
module AdpcmTable {

  const STEPS := 49

  /** The eight 12-bit increments of a step index, by magnitude. */
  function IncRow(step: nat): (row: seq<int>)
    ensures |row| == 8
  {
    match step
    case 0 => [2, 6, 10, 14, 18, 22, 26, 30]
    case 1 => [2, 6, 10, 14, 19, 23, 27, 31]
    case 2 => [2, 7, 11, 16, 21, 26, 30, 35]
    case 3 => [2, 7, 13, 18, 23, 28, 34, 39]
    case 4 => [2, 8, 14, 20, 25, 31, 37, 43]
    case 5 => [3, 9, 15, 21, 28, 34, 40, 46]
    case 6 => [3, 10, 17, 24, 31, 38, 45, 52]
    case 7 => [3, 11, 19, 27, 34, 42, 50, 58]
    case 8 => [4, 12, 21, 29, 38, 46, 55, 63]
    case 9 => [4, 13, 23, 32, 41, 50, 60, 69]
    case 10 => [5, 15, 25, 35, 46, 56, 66, 76]
    case 11 => [5, 16, 28, 39, 50, 61, 73, 84]
    case 12 => [6, 18, 31, 43, 56, 68, 81, 93]
    case 13 => [6, 20, 34, 48, 61, 75, 89, 103]
    case 14 => [7, 22, 37, 52, 67, 82, 97, 112]
    case 15 => [8, 24, 41, 57, 74, 90, 107, 123]
    case 16 => [9, 27, 45, 63, 82, 100, 118, 136]
    case 17 => [10, 30, 50, 70, 90, 110, 130, 150]
    case 18 => [11, 33, 55, 77, 99, 121, 143, 165]
    case 19 => [12, 36, 60, 84, 109, 133, 157, 181]
    case 20 => [13, 40, 66, 93, 120, 147, 173, 200]
    case 21 => [14, 44, 73, 103, 132, 162, 191, 221]
    case 22 => [16, 48, 81, 113, 146, 178, 211, 243]
    case 23 => [17, 53, 89, 125, 160, 196, 232, 268]
    case 24 => [19, 58, 98, 137, 176, 215, 255, 294]
    case 25 => [21, 64, 108, 151, 194, 237, 281, 324]
    case 26 => [23, 71, 118, 166, 213, 261, 308, 356]
    case 27 => [26, 78, 130, 182, 235, 287, 339, 391]
    case 28 => [28, 86, 143, 201, 258, 316, 373, 431]
    case 29 => [31, 94, 158, 221, 284, 347, 411, 474]
    case 30 => [34, 104, 174, 244, 313, 383, 453, 523]
    case 31 => [38, 115, 191, 268, 345, 422, 498, 575]
    case 32 => [42, 126, 210, 294, 379, 463, 547, 631]
    case 33 => [46, 139, 231, 324, 417, 510, 602, 695]
    case 34 => [51, 153, 255, 357, 459, 561, 663, 765]
    case 35 => [56, 168, 280, 392, 505, 617, 729, 841]
    case 36 => [61, 185, 308, 432, 555, 679, 802, 926]
    case 37 => [68, 204, 340, 476, 612, 748, 884, 1020]
    case 38 => [74, 224, 373, 523, 672, 822, 971, 1121]
    case 39 => [82, 246, 411, 575, 740, 904, 1069, 1233]
    case 40 => [90, 271, 452, 633, 814, 995, 1176, 1357]
    case 41 => [99, 298, 497, 696, 895, 1094, 1293, 1492]
    case 42 => [109, 328, 547, 766, 985, 1204, 1423, 1642]
    case 43 => [120, 361, 601, 842, 1083, 1324, 1564, 1805]
    case 44 => [132, 397, 662, 927, 1192, 1457, 1722, 1987]
    case 45 => [145, 437, 728, 1020, 1311, 1603, 1894, 2186]
    case 46 => [160, 480, 801, 1121, 1442, 1762, 2083, 2047]
    case 47 => [176, 529, 881, 1234, 1587, 1940, 2292, 2047]
    case _ => [194, 582, 970, 1358, 1746, 2134, 2047, 2047]
  }

  function Inc(step: nat, mag: nat): int
    requires mag < 8
  {
    IncRow(step)[mag]
  }

  /** The magnitude whose increment lies next below that of `mag`; the clipped
      entries at the end of the last three rows are out of order. */
  function Below(step: nat, mag: nat): nat
    requires 0 < mag < 8
  {
    if step == 48 && mag >= 6 then 4
    else if step >= 46 && mag == 7 then 5
    else mag - 1
  }

  /** The grid of increments has no hole wider than 388: that of magnitude 0 and
      its negative are at most that far apart, and below any other increment
      there is one at most that far down. */
  predicate NoHole(step: nat, mag: nat)
    requires mag < 8
  {
    if mag == 0 then 0 < 2 * Inc(step, 0) <= 388
    else 0 < Inc(step, mag) - Inc(step, Below(step, mag)) <= 388
  }

  /** The step size of a row: 16 * 1.1 ^ step, rounded down. */
  function Size(step: nat): (b: nat)
    ensures 16 <= b <= 1552 && (step < 46 ==> b <= 1166)
  {
    match step
    case 0 => 16 case 1 => 17 case 2 => 19 case 3 => 21 case 4 => 23 case 5 => 25 case 6 => 28 case 7 => 31
    case 8 => 34 case 9 => 37 case 10 => 41 case 11 => 45 case 12 => 50 case 13 => 55 case 14 => 60
    case 15 => 66 case 16 => 73 case 17 => 80 case 18 => 88 case 19 => 97 case 20 => 107 case 21 => 118
    case 22 => 130 case 23 => 143 case 24 => 157 case 25 => 173 case 26 => 190 case 27 => 209 case 28 => 230
    case 29 => 253 case 30 => 279 case 31 => 307 case 32 => 337 case 33 => 371 case 34 => 408 case 35 => 449
    case 36 => 494 case 37 => 544 case 38 => 598 case 39 => 658 case 40 => 724 case 41 => 796 case 42 => 876
    case 43 => 963 case 44 => 1060 case 45 => 1166 case 46 => 1282 case 47 => 1411 case _ => 1552
  }

  /** Eight times an entry is the odd multiple, rounded down. */
  predicate Eighth(v: int, n: nat, b: nat) { 8 * v <= n * b < 8 * v + 8 }

  /** The first entries of a row, and its last two. */
  predicate Follows(r: seq<int>, b: nat)
    requires |r| == 8
  {
    Eighth(r[0], 1, b) && Eighth(r[1], 3, b) && Eighth(r[2], 5, b) && Eighth(r[3], 7, b) && Eighth(r[4], 9, b)
  }

  predicate Ends(r: seq<int>, b: nat)
    requires |r| == 8
  {
    Eighth(r[5], 11, b) && Eighth(r[6], 13, b) && Eighth(r[7], 15, b)
  }

  lemma RowsTo3(step: nat)
    requires step < 4
    ensures Follows(IncRow(step), Size(step)) && Ends(IncRow(step), Size(step))
  {
  }

  lemma RowsTo7(step: nat)
    requires 4 <= step < 8
    ensures Follows(IncRow(step), Size(step)) && Ends(IncRow(step), Size(step))
  {
  }

  lemma RowsTo11(step: nat)
    requires 8 <= step < 12
    ensures Follows(IncRow(step), Size(step)) && Ends(IncRow(step), Size(step))
  {
  }

  lemma RowsTo17(step: nat)
    requires 12 <= step < 18
    ensures Follows(IncRow(step), Size(step)) && Ends(IncRow(step), Size(step))
  {
  }

  lemma RowsTo23(step: nat)
    requires 18 <= step < 24
    ensures Follows(IncRow(step), Size(step)) && Ends(IncRow(step), Size(step))
  {
  }

  lemma RowsTo29(step: nat)
    requires 24 <= step < 30
    ensures Follows(IncRow(step), Size(step)) && Ends(IncRow(step), Size(step))
  {
  }

  lemma RowsTo34(step: nat)
    requires 30 <= step < 35
    ensures Follows(IncRow(step), Size(step)) && Ends(IncRow(step), Size(step))
  {
  }

  lemma RowsTo39(step: nat)
    requires 35 <= step < 40
    ensures Follows(IncRow(step), Size(step)) && Ends(IncRow(step), Size(step))
  {
  }

  lemma RowsTo45(step: nat)
    requires 40 <= step < 46
    ensures Follows(IncRow(step), Size(step)) && Ends(IncRow(step), Size(step))
  {
  }

  /** The last three rows are clipped at the end. */
  lemma ClippedFollow(step: nat)
    requires 46 <= step < STEPS
    ensures var r, b := IncRow(step), Size(step);
      && Follows(r, b) && Eighth(r[5], 11, b) && r[7] == 2047
      && if step == 48 then r[6] == 2047 else Eighth(r[6], 13, b)
  {
  }

  /** Every increment of the table, by the step size of its row. */
  lemma IncIs(step: nat, mag: nat)
    requires step < STEPS && mag < 8
    ensures if (step >= 46 && mag == 7) || (step == 48 && mag == 6) then Inc(step, mag) == 2047
            else Inc(step, mag) == (2 * mag + 1) * Size(step) / 8
  {
    hide IncRow, Size;
    if step >= 46 { ClippedFollow(step); }
    else if step < 4 { RowsTo3(step); }
    else if step < 8 { RowsTo7(step); }
    else if step < 12 { RowsTo11(step); }
    else if step < 18 { RowsTo17(step); }
    else if step < 24 { RowsTo23(step); }
    else if step < 30 { RowsTo29(step); }
    else if step < 35 { RowsTo34(step); }
    else if step < 40 { RowsTo39(step); }
    else { RowsTo45(step); }
    match mag { case 0 => case 1 => case 2 => case 3 => case 4 => case 5 => case 6 => case _ => }
  }

  /** The last three rows, where the table is clipped to eleven bits. */
  lemma ClippedRows(step: nat, mag: nat)
    requires 46 <= step < STEPS && mag < 8
    ensures NoHole(step, mag) && 0 < Inc(step, mag) < 2400
  {
    match mag { case 0 => case 1 => case 2 => case 3 => case 4 => case 5 => case 6 => case _ => }
  }

  lemma GridHasNoHole(step: nat, mag: nat)
    requires step < STEPS && mag < 8
    ensures NoHole(step, mag) && 0 < Inc(step, mag) < 2400
  {
    hide IncRow, Size, Inc;
    if step >= 46 {
      ClippedRows(step, mag);
    } else {
      IncIs(step, mag);
      if mag > 0 { IncIs(step, mag - 1); }
    }
  }
}
