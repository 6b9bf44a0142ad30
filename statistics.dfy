/** `GenderStatisticsDataAccess` and `GoodVsEvilStatisticsDataAccess`: the
    share of each category among all demographic rows, as a pie chart. A
    share is `BigDecimal.divide(total, 2, RoundingMode.HALF_UP)`, kept here
    exactly as a whole number of hundredths. */
module Statistics {
  import opened Entities

  /** `PieChart.Data`: a label and a share in hundredths. */
  datatype Slice = Slice(name: string, hundredths: int)

  /** `count / total` rounded half-up to two decimal places, in hundredths:
      the nearest whole number of hundredths, a tie going up. */
  function HalfUp(count: nat, total: nat): (r: nat)
    requires total > 0
    ensures (2 * r - 1) * total <= 200 * count < (2 * r + 1) * total
  {
    var q := (200 * count + total) / (2 * total);
    var m := (200 * count + total) % (2 * total);
    assert 200 * count + total == q * (2 * total) + m;
    assert q * (2 * total) == 2 * q * total;
    assert (2 * q - 1) * total == 2 * q * total - total;
    assert (2 * q + 1) * total == 2 * q * total + total;
    q
  }

  lemma LeCancel(a: int, b: int, t: int)
    requires t > 0 && a * t <= b * t
    ensures a <= b
  {
  }

  lemma LtCancel(a: int, b: int, t: int)
    requires t > 0 && a * t < b * t
    ensures a < b
  {
  }

  /** A count of none is 0.00, a count of all is 1.00, and a share never
      leaves that range. */
  lemma HalfUpRange(count: nat, total: nat)
    requires 0 < total && count <= total
    ensures count == 0 ==> HalfUp(count, total) == 0
    ensures count == total ==> HalfUp(count, total) == 100
    ensures 0 <= HalfUp(count, total) <= 100
  {
    var r := HalfUp(count, total);
    assert (2 * r - 1) * total <= 200 * total;
    LeCancel(2 * r - 1, 200, total);
    if count == 0 {
      LeCancel(2 * r - 1, 0, total);
    }
    if count == total {
      LtCancel(200, 2 * r + 1, total);
    }
  }

  /** Half-up shares of counts that add up to the total add up to 1.00
      give or take half a hundredth per share: a share is rounded up by at
      most half a hundredth and down by less than that. */
  lemma SharesAddUp(shares: seq<int>, counts: seq<int>, t: int)
    requires t > 0 && |shares| == |counts|
    requires forall i :: 0 <= i < |shares| ==> (2 * shares[i] - 1) * t <= 200 * counts[i] < (2 * shares[i] + 1) * t
    ensures (2 * Sum(shares) - |shares|) * t <= 200 * Sum(counts)
    ensures 200 * Sum(counts) <= (2 * Sum(shares) + |shares|) * t
    ensures shares != [] ==> 200 * Sum(counts) < (2 * Sum(shares) + |shares|) * t
  {
    if shares != [] {
      SharesAddUp(shares[1..], counts[1..], t);
      AddBounds(shares[0], counts[0], Sum(shares[1..]), Sum(counts[1..]), |shares[1..]|, t);
    }
  }

  /** Adding one rounded share to a sum of rounded shares. */
  lemma AddBounds(r: int, c: int, s: int, m: int, n: int, t: int)
    requires (2 * r - 1) * t <= 200 * c < (2 * r + 1) * t
    requires (2 * s - n) * t <= 200 * m <= (2 * s + n) * t
    ensures (2 * (r + s) - (n + 1)) * t <= 200 * (c + m) < (2 * (r + s) + (n + 1)) * t
  {
    assert (2 * (r + s) - (n + 1)) * t == (2 * r - 1) * t + (2 * s - n) * t by {
      assert 2 * (r + s) - (n + 1) == (2 * r - 1) + (2 * s - n);
    }
    assert (2 * (r + s) + (n + 1)) * t == (2 * r + 1) * t + (2 * s + n) * t by {
      assert 2 * (r + s) + (n + 1) == (2 * r + 1) + (2 * s + n);
    }
  }

  function Sum(xs: seq<int>): int {
    if xs == [] then 0 else xs[0] + Sum(xs[1..])
  }

  /** `SELECT COUNT(*) FROM CharacterDemographic cd WHERE cd.gender LIKE code`:
      the pattern has no wildcard, so it is equality with the gender code;
      a row with no gender is not counted. */
  function CountGender(rows: seq<CharacterDemographic>, code: string): (n: nat)
    ensures n <= |rows|
  {
    if rows == [] then 0
    else (if rows[0].gender.Some? && rows[0].gender.value.gender == code then 1 else 0) + CountGender(rows[1..], code)
  }

  /** `WHERE cd.villain = TRUE`, `= FALSE` and `= NULL`; HQL turns the
      comparison with `NULL` into `IS NULL`. */
  function CountVillain(rows: seq<CharacterDemographic>, villain: Option<bool>): (n: nat)
    ensures n <= |rows|
  {
    if rows == [] then 0
    else (if rows[0].villain == villain then 1 else 0) + CountVillain(rows[1..], villain)
  }

  const GenderCodes: seq<string> := ["M", "F", "U", "N"]
  const GenderLabels: seq<string> := ["male", "female", "unknown", "not applicable"]

  /** The gender pie chart over all demographic rows (the cartoon the
      caller passes is not used). Zero rows make the division throw, and the
      caught exception leaves the list empty; so does any failed query. */
  function GenderStatistics(rows: seq<CharacterDemographic>, fault: bool): (slices: seq<Slice>)
    ensures slices == [] <==> fault || |rows| == 0
    ensures slices != [] ==> |slices| == 4
    ensures slices != [] ==> forall i :: 0 <= i < 4 ==>
              && slices[i].name == GenderLabels[i]
              && 0 <= slices[i].hundredths <= 100
              && (2 * slices[i].hundredths - 1) * |rows| <= 200 * CountGender(rows, GenderCodes[i])
              && 200 * CountGender(rows, GenderCodes[i]) < (2 * slices[i].hundredths + 1) * |rows|
  {
    if fault || |rows| == 0 then []
    else
      var total := |rows|;
      var slices := [Slice("male", HalfUp(CountGender(rows, "M"), total)),
                     Slice("female", HalfUp(CountGender(rows, "F"), total)),
                     Slice("unknown", HalfUp(CountGender(rows, "U"), total)),
                     Slice("not applicable", HalfUp(CountGender(rows, "N"), total))];
      assert forall i :: 0 <= i < 4 ==> 0 <= slices[i].hundredths <= 100 by {
        forall i | 0 <= i < 4 ensures 0 <= slices[i].hundredths <= 100 {
          HalfUpRange(CountGender(rows, GenderCodes[i]), total);
        }
      }
      slices
  }

  /** The good-versus-evil pie chart: evil, good and unknown, in that order. */
  function GoodVsEvilStatistics(rows: seq<CharacterDemographic>, fault: bool): (slices: seq<Slice>)
    ensures slices == [] <==> fault || |rows| == 0
    ensures slices != [] ==> |slices| == 3
    ensures slices != [] ==> forall i :: 0 <= i < 3 ==>
              && slices[i].name == ["evil", "good", "unknown"][i]
              && 0 <= slices[i].hundredths <= 100
              && (2 * slices[i].hundredths - 1) * |rows| <= 200 * CountVillain(rows, VillainValues[i])
              && 200 * CountVillain(rows, VillainValues[i]) < (2 * slices[i].hundredths + 1) * |rows|
  {
    if fault || |rows| == 0 then []
    else
      var total := |rows|;
      var slices := [Slice("evil", HalfUp(CountVillain(rows, Some(true)), total)),
                     Slice("good", HalfUp(CountVillain(rows, Some(false)), total)),
                     Slice("unknown", HalfUp(CountVillain(rows, None), total))];
      assert forall i :: 0 <= i < 3 ==> 0 <= slices[i].hundredths <= 100 by {
        forall i | 0 <= i < 3 ensures 0 <= slices[i].hundredths <= 100 {
          HalfUpRange(CountVillain(rows, VillainValues[i]), total);
        }
      }
      slices
  }

  const VillainValues: seq<Option<bool>> := [Some(true), Some(false), None]

  /** Every row is evil, good or unknown, so the three counts add up to
      the total. */
  lemma {:induction false} VillainCountsCover(rows: seq<CharacterDemographic>)
    ensures CountVillain(rows, Some(true)) + CountVillain(rows, Some(false)) + CountVillain(rows, None) == |rows|
  {
    if rows != [] {
      VillainCountsCover(rows[1..]);
      match rows[0].villain
      case Some(b) => assert b || !b;
      case None =>
    }
  }

  /** When every row carries one of the four codes, the four counts add up
      to the total. */
  lemma {:induction false} GenderCountsCover(rows: seq<CharacterDemographic>)
    requires forall d :: d in rows ==> d.gender.Some? && d.gender.value.gender in GenderCodes
    ensures CountGender(rows, "M") + CountGender(rows, "F") + CountGender(rows, "U") + CountGender(rows, "N") == |rows|
  {
    if rows != [] {
      assert rows[0] in rows;
      assert forall d :: d in rows[1..] ==> d in rows;
      GenderCountsCover(rows[1..]);
    }
  }

  /** The three good-versus-evil shares add up to between 0.99 and 1.01. */
  lemma GoodVsEvilSharesSum(rows: seq<CharacterDemographic>)
    requires |rows| > 0
    ensures var s := GoodVsEvilStatistics(rows, false);
            99 <= s[0].hundredths + s[1].hundredths + s[2].hundredths <= 101
  {
    var t := |rows|;
    var s := GoodVsEvilStatistics(rows, false);
    var shares := [s[0].hundredths, s[1].hundredths, s[2].hundredths];
    var counts := [CountVillain(rows, Some(true)), CountVillain(rows, Some(false)), CountVillain(rows, None)];
    assert forall i :: 0 <= i < 3 ==> counts[i] == CountVillain(rows, VillainValues[i]);
    SharesAddUp(shares, counts, t);
    assert Sum(shares) == s[0].hundredths + s[1].hundredths + s[2].hundredths by {
      assert Sum(shares[2..]) == shares[2];
      assert Sum(shares[1..]) == shares[1] + shares[2];
    }
    assert Sum(counts) == t by {
      VillainCountsCover(rows);
      assert Sum(counts[2..]) == counts[2];
      assert Sum(counts[1..]) == counts[1] + counts[2];
    }
    LeCancel(2 * Sum(shares) - 3, 200, t);
    LtCancel(200, 2 * Sum(shares) + 3, t);
  }

  /** When every row carries one of the four gender codes, the four gender
      shares add up to between 0.99 and 1.02. */
  lemma GenderSharesSum(rows: seq<CharacterDemographic>)
    requires |rows| > 0
    requires forall d :: d in rows ==> d.gender.Some? && d.gender.value.gender in GenderCodes
    ensures var s := GenderStatistics(rows, false);
            99 <= s[0].hundredths + s[1].hundredths + s[2].hundredths + s[3].hundredths <= 102
  {
    var t := |rows|;
    var s := GenderStatistics(rows, false);
    var shares := [s[0].hundredths, s[1].hundredths, s[2].hundredths, s[3].hundredths];
    var counts := [CountGender(rows, "M"), CountGender(rows, "F"), CountGender(rows, "U"), CountGender(rows, "N")];
    assert forall i :: 0 <= i < 4 ==> counts[i] == CountGender(rows, GenderCodes[i]);
    SharesAddUp(shares, counts, t);
    assert Sum(shares) == s[0].hundredths + s[1].hundredths + s[2].hundredths + s[3].hundredths by {
      assert Sum(shares[3..]) == shares[3];
      assert Sum(shares[2..]) == shares[2] + shares[3];
      assert Sum(shares[1..]) == shares[1] + shares[2] + shares[3];
    }
    assert Sum(counts) == t by {
      GenderCountsCover(rows);
      assert Sum(counts[3..]) == counts[3];
      assert Sum(counts[2..]) == counts[2] + counts[3];
      assert Sum(counts[1..]) == counts[1] + counts[2] + counts[3];
    }
    LeCancel(2 * Sum(shares) - 4, 200, t);
    LtCancel(200, 2 * Sum(shares) + 4, t);
  }
}
