/** Timestamps as the converter uses them: the wall-clock fields of a Python `datetime`,
    their `strftime` renderings and an integer key that orders them. */
module DateTimes {
  import opened Text

  datatype DateTimeFields = DateTimeFields(year: int, month: int, day: int, hour: int, minute: int, second: int)
  {
    /** The ranges Python's `datetime` constructor enforces (days checked against 31 only). */
    predicate Valid() {
      1 <= year <= 9999 && 1 <= month <= 12 && 1 <= day <= 31
      && 0 <= hour < 24 && 0 <= minute < 60 && 0 <= second < 60
    }
  }

  type DateTime = d: DateTimeFields | d.Valid() witness DateTimeFields(1, 1, 1, 0, 0, 0)

  /** `datetime.datetime.min`. */
  const MinDateTime: DateTime := DateTimeFields(1, 1, 1, 0, 0, 0)

  /** Chronological order: field by field, most significant first. */
  predicate Before(a: DateTime, b: DateTime) {
    a.year < b.year
    || (a.year == b.year && (a.month < b.month
    || (a.month == b.month && (a.day < b.day
    || (a.day == b.day && (a.hour < b.hour
    || (a.hour == b.hour && (a.minute < b.minute
    || (a.minute == b.minute && a.second < b.second)))))))))
  }

  /** A count of seconds that orders timestamps as `Before` does. */
  function Ord(d: DateTime): (r: int)
    ensures r >= 0
  {
    d.second + 60 * (d.minute + 60 * (d.hour + 24 * ((d.day - 1) + 31 * ((d.month - 1) + 12 * (d.year - 1)))))
  }

  /** `Ord` is an order embedding: comparing keys is comparing timestamps. */
  lemma OrdOrder(a: DateTime, b: DateTime)
    ensures Before(a, b) <==> Ord(a) < Ord(b)
    ensures Ord(a) == Ord(b) <==> a == b
  {
    var ma := (a.day - 1) + 31 * ((a.month - 1) + 12 * (a.year - 1));
    var mb := (b.day - 1) + 31 * ((b.month - 1) + 12 * (b.year - 1));
    var ha := a.minute + 60 * a.hour;
    var hb := b.minute + 60 * b.hour;
    assert Ord(a) == a.second + 60 * ha + 86400 * ma;
    assert Ord(b) == b.second + 60 * hb + 86400 * mb;
    assert 0 <= a.second + 60 * ha < 86400 && 0 <= b.second + 60 * hb < 86400;
    assert ma < mb <==> (a.year < b.year || (a.year == b.year && (a.month < b.month
                         || (a.month == b.month && a.day < b.day))));
    assert ma == mb <==> (a.year == b.year && a.month == b.month && a.day == b.day);
  }

  /** `d.strftime('%Y-%m-%d %H:%M:%S')`; `%Y` is unpadded, as glibc writes it. */
  function FormatSeconds(d: DateTime): string
  {
    FormatMinutes(d) + ":" + Pad2(d.second)
  }

  /** `d.strftime('%Y-%m-%d %H:%M')`. */
  function FormatMinutes(d: DateTime): (r: string)
    ensures r != []
  {
    Decimal(d.year as nat) + "-" + Pad2(d.month as nat) + "-" + Pad2(d.day as nat) + " "
    + Pad2(d.hour as nat) + ":" + Pad2(d.minute as nat)
  }

  /** The characters a formatted timestamp is made of: digits and `-`, `:`, ` `. */
  predicate StampChar(c: char) { IsDigit(c) || c == '-' || c == ':' || c == ' ' }

  predicate AllStamp(s: string) { forall i :: 0 <= i < |s| ==> StampChar(s[i]) }

  predicate AllDigits(s: string) { forall i :: 0 <= i < |s| ==> IsDigit(s[i]) }

  lemma StampAppend(a: string, b: string)
    requires AllStamp(a) && AllStamp(b)
    ensures AllStamp(a + b)
  {
  }

  lemma DigitsStamp(s: string)
    requires AllDigits(s)
    ensures AllStamp(s) && ' ' !in s
  {
  }

  /** The date half `Y-mm-dd` of a timestamp. */
  function DatePart(d: DateTime): string
  {
    Decimal(d.year as nat) + "-" + Pad2(d.month as nat) + "-" + Pad2(d.day as nat)
  }

  /** The time half `HH:MM` of a minute-precision timestamp. */
  function TimePart(d: DateTime): string
  {
    Pad2(d.hour as nat) + ":" + Pad2(d.minute as nat)
  }

  lemma DatePartShape(d: DateTime)
    ensures AllStamp(DatePart(d)) && ' ' !in DatePart(d) && DatePart(d) != []
    ensures IsDigit(DatePart(d)[0])
  {
    var y, mo, da := Decimal(d.year as nat), Pad2(d.month as nat), Pad2(d.day as nat);
    DigitsStamp(y);
    DigitsStamp(mo);
    DigitsStamp(da);
    StampAppend(y, "-");
    StampAppend(y + "-", mo);
    StampAppend(y + "-" + mo, "-");
    StampAppend(y + "-" + mo + "-", da);
    assert DatePart(d)[0] == y[0];
  }

  lemma TimePartShape(d: DateTime)
    ensures AllStamp(TimePart(d)) && ' ' !in TimePart(d)
  {
    var h, mi := Pad2(d.hour as nat), Pad2(d.minute as nat);
    DigitsStamp(h);
    DigitsStamp(mi);
    StampAppend(h, ":");
    StampAppend(h + ":", mi);
  }

  /** A rendered timestamp is one line with exactly one space, between the date and the time:
      the shape the front-matter writer splits on. */
  lemma FormatShape(d: DateTime)
    ensures AllStamp(FormatSeconds(d)) && AllStamp(FormatMinutes(d))
    ensures IsDigit(FormatMinutes(d)[0]) && IsDigit(FormatSeconds(d)[|FormatSeconds(d)| - 1])
    ensures FormatMinutes(d) == DatePart(d) + " " + TimePart(d)
    ensures ' ' !in DatePart(d) && ' ' !in TimePart(d)
  {
    DatePartShape(d);
    TimePartShape(d);
    var date, time := DatePart(d), TimePart(d);
    assert FormatMinutes(d) == date + " " + time;
    StampAppend(date, " ");
    StampAppend(date + " ", time);
    var se := Pad2(d.second as nat);
    DigitsStamp(se);
    StampAppend(FormatMinutes(d), ":");
    StampAppend(FormatMinutes(d) + ":", se);
    assert FormatMinutes(d)[0] == date[0];
  }
}
