/**
  Wall-clock moments as `datetime.datetime.now()` returns them, and the three
  `strftime` formats the program prints them in.
 */
module Clock {
  import opened Text

  datatype DateTime = DateTime(year: nat, month: nat, day: nat, hour: nat, minute: nat, second: nat)
  {
    /** Every field fits the width its `strftime` directive prints. */
    predicate Valid() {
      1000 <= year <= 9999 && 1 <= month <= 12 && 1 <= day <= 31
      && hour < 24 && minute < 60 && second < 60
    }
  }

  type Moment = t: DateTime | t.Valid() witness DateTime(2000, 1, 1, 0, 0, 0)

  /** `strftime("%Y%m%d_%H%M%S")`, the prefix of every backup file name. */
  function BackupStamp(t: Moment): string {
    Pad(t.year, 4) + (Pad(t.month, 2) + (Pad(t.day, 2) + ("_"
    + (Pad(t.hour, 2) + (Pad(t.minute, 2) + Pad(t.second, 2))))))
  }

  /** `strftime("%Y%m%d%H%M%S")`, used in report file names. */
  function CompactStamp(t: Moment): string {
    Pad(t.year, 4) + Pad(t.month, 2) + Pad(t.day, 2)
    + Pad(t.hour, 2) + Pad(t.minute, 2) + Pad(t.second, 2)
  }

  /** `strftime("%Y-%m-%d %H:%M:%S")`, the date line of a report. */
  function DisplayStamp(t: Moment): string {
    Pad(t.year, 4) + "-" + Pad(t.month, 2) + "-" + Pad(t.day, 2) + " "
    + Pad(t.hour, 2) + ":" + Pad(t.minute, 2) + ":" + Pad(t.second, 2)
  }

  /** `a` is strictly earlier than `b`. */
  predicate Before(a: DateTime, b: DateTime) {
    a.year < b.year || (a.year == b.year &&
    (a.month < b.month || (a.month == b.month &&
    (a.day < b.day || (a.day == b.day &&
    (a.hour < b.hour || (a.hour == b.hour &&
    (a.minute < b.minute || (a.minute == b.minute &&
    a.second < b.second)))))))))
  }

  /** One step of the comparison of two stamps: a field of width `w` followed
      by the rest. */
  lemma {:induction false} FieldThenRest(x: nat, y: nat, w: nat, rx: string, ry: string)
    requires x < Pow10(w) && y < Pow10(w)
    ensures LexLess(Pad(x, w) + rx, Pad(y, w) + ry) <==> x < y || (x == y && LexLess(rx, ry))
  {
    LexLessConcat(Pad(x, w), rx, Pad(y, w), ry);
    PadOrder(x, y, w);
    PadInjective(x, y, w);
  }

  /** The stamps are fixed-width, so comparing two of them as strings is the
      same as comparing the moments they stand for. */
  lemma {:induction false} BackupStampOrder(a: Moment, b: Moment)
    ensures LexLess(BackupStamp(a), BackupStamp(b)) <==> Before(a, b)
  {
    assert Pow10(2) == 100 && Pow10(4) == 10000;
    var sa, sb := Pad(a.second, 2), Pad(b.second, 2);
    var ma, mb := Pad(a.minute, 2) + sa, Pad(b.minute, 2) + sb;
    var ha, hb := Pad(a.hour, 2) + ma, Pad(b.hour, 2) + mb;
    var ua, ub := "_" + ha, "_" + hb;
    var da, db := Pad(a.day, 2) + ua, Pad(b.day, 2) + ub;
    var na, nb := Pad(a.month, 2) + da, Pad(b.month, 2) + db;
    PadOrder(a.second, b.second, 2);
    FieldThenRest(a.minute, b.minute, 2, sa, sb);
    FieldThenRest(a.hour, b.hour, 2, ma, mb);
    LexLessConcat("_", ha, "_", hb);
    FieldThenRest(a.day, b.day, 2, ua, ub);
    FieldThenRest(a.month, b.month, 2, da, db);
    FieldThenRest(a.year, b.year, 4, na, nb);
  }
}
