/** The key the news lookup is called with for a clicked date. */
module News {
  import opened Text

  /** `dateString.replace(/-/g, '')`: every hyphen removed, everything else kept. */
  function DateKey(dateString: string): (key: string)
    ensures '-' !in key
    ensures |key| <= |dateString|
  {
    if |dateString| == 0 then ""
    else (if dateString[0] == '-' then "" else [dateString[0]]) + DateKey(dateString[1..])
  }

  lemma {:induction false} DateKeyAppend(a: string, b: string)
    ensures DateKey(a + b) == DateKey(a) + DateKey(b)
  {
    if |a| == 0 {
      assert a + b == b;
    } else {
      assert (a + b)[1..] == a[1..] + b;
      assert DateKey(a + b) == (if a[0] == '-' then "" else [a[0]]) + DateKey(a[1..] + b);
      DateKeyAppend(a[1..], b);
    }
  }

  /** A text with no hyphen is its own key, so the key of a key is itself. */
  lemma {:induction false} DateKeyNoHyphen(s: string)
    requires '-' !in s
    ensures DateKey(s) == s
  {
    if |s| > 0 {
      assert s == [s[0]] + s[1..];
      DateKeyNoHyphen(s[1..]);
    }
  }

  lemma DateKeyIdempotent(s: string)
    ensures DateKey(DateKey(s)) == DateKey(s)
  {
    DateKeyNoHyphen(DateKey(s));
  }

  /** A hyphen between two parts is dropped and the parts are kept. */
  lemma DateKeySkipHyphen(a: string, b: string)
    requires '-' !in a
    ensures DateKey(a + ['-'] + b) == a + DateKey(b)
  {
    var hyphen: string := ['-'];
    DateKeyAppend(a + hyphen, b);
    DateKeyAppend(a, hyphen);
    DateKeyNoHyphen(a);
    var kh := DateKey(hyphen);
    assert kh == "" by {
      assert hyphen[1..] == "";
    }
    assert a + kh == a;
  }

  /** A `YYYY-MM-DD` date text. */
  predicate IsIsoDate(s: string) {
    |s| == 10 && s[4] == '-' && s[7] == '-'
    && forall i :: 0 <= i < 10 && i != 4 && i != 7 ==> IsDigit(s[i])
  }

  /** For a `YYYY-MM-DD` text the key is the eight digits `YYYYMMDD`, in order. */
  lemma IsoDateKey(s: string)
    requires IsIsoDate(s)
    ensures DateKey(s) == s[..4] + s[5..7] + s[8..]
    ensures |DateKey(s)| == 8
    ensures forall i :: 0 <= i < 8 ==> IsDigit(DateKey(s)[i])
  {
    var year, month, day := s[..4], s[5..7], s[8..];
    assert forall i :: 0 <= i < 4 ==> IsDigit(year[i]) && year[i] != '-';
    assert forall i :: 0 <= i < 2 ==> IsDigit(month[i]) && month[i] != '-';
    assert forall i :: 0 <= i < 2 ==> IsDigit(day[i]) && day[i] != '-';
    assert s == year + ['-'] + (month + ['-'] + day);
    DateKeySkipHyphen(year, month + ['-'] + day);
    DateKeySkipHyphen(month, day);
    DateKeyNoHyphen(day);
    assert DateKey(s) == year + (month + day);
  }
}
