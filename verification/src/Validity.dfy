/** The validity period of a submitted message: the octet that chan_vgsm/sms_submit.c sends for one in seconds. */
module Validity {
  import opened Bits

  const DAY := 86400
  const WEEK := 7 * 86400

  function PeriodOctet(period: int): octet
  {
    if period < 300 then 1
    else if period <= 43200 then period / 300 - 1
    else if period <= DAY then period / 1800 - 24 + 144
    else if period <= 30 * DAY then period / DAY - 1 + 168
    else if period <= 63 * WEEK then (period / WEEK - 1 + 197) % 256
    else 0xff
  }

  /** The seconds that an octet stands for (section 9.2.3.12.1 of 3GPP TS 23.040). */
  function PeriodOf(v: octet): nat
  {
    if v <= 143 then (v + 1) * 300
    else if v <= 167 then 43200 + (v - 143) * 1800
    else if v <= 196 then (v - 166) * DAY
    else (v - 192) * WEEK
  }

  /** The longest period that can be said and is no longer than the one asked for. */
  ghost predicate IsLongest(v: octet, period: int)
  {
    PeriodOf(v) <= period && forall w: octet :: PeriodOf(w) <= period ==> PeriodOf(w) <= PeriodOf(v)
  }

  lemma Longer(v: octet, w: octet)
    ensures v < w ==> PeriodOf(v) < PeriodOf(w)
  {
  }

  /** So an octet is the right one when the next one would be too long. */
  lemma NextTooLong(v: octet, period: int)
    requires PeriodOf(v) <= period && (v == 255 || PeriodOf(v + 1) > period)
    ensures IsLongest(v, period)
  {
    forall w: octet | PeriodOf(w) <= period ensures PeriodOf(w) <= PeriodOf(v) {
      Longer(v, w);
      Longer(w, v);
      if v < w && v < 255 { Longer(v + 1, w); }
    }
  }

  /** What the code sends is right exactly from five minutes to twelve hours, and for more than 63 weeks. */
  lemma PeriodExact(period: int)
    ensures IsLongest(PeriodOctet(period), period) <==> 300 <= period <= 43200 || period > 63 * WEEK
  {
    var v := PeriodOctet(period);
    if 300 <= period <= 43200 || period > 63 * WEEK {
      NextTooLong(v, period);
    } else if period <= 63 * WEEK && period / WEEK >= 60 {
      assert PeriodOf(v) <= 1200 && PeriodOf(196) <= period;
    } else {
      PeriodTooLong(period);
    }
  }

  /** Elsewhere up to sixty weeks a message is kept longer than asked for: by half an hour, a day or four weeks, after
      rounding down. */
  lemma PeriodTooLong(period: int)
    requires period < 300 || 43200 < period < 60 * WEEK
    ensures PeriodOf(PeriodOctet(period)) > period
    ensures 43200 < period < DAY ==> PeriodOf(PeriodOctet(period)) == period / 1800 * 1800 + 1800
    ensures DAY <= period < 30 * DAY ==> PeriodOf(PeriodOctet(period)) == period / DAY * DAY + DAY
    ensures 30 * DAY < period ==> PeriodOf(PeriodOctet(period)) == period / WEEK * WEEK + 4 * WEEK
  {
  }

  /** From sixty weeks on the octet runs over, and a message is kept for minutes. */
  lemma PeriodRunsOver(period: int)
    requires 60 * WEEK <= period <= 63 * WEEK
    ensures PeriodOf(PeriodOctet(period)) == (period / WEEK - 59) * 300
  {
  }
}
