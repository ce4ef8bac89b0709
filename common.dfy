/** Value types shared by every module of the model: bytes, optional and
    fallible results, the '/'-separated option syntax of the command line
    and the number parsers and formatters the keyword parsers rely on. */
module Common {

  /** One 8-bit sample (`u8`). */
  type byte = b: int | 0 <= b < 256

  datatype Option<T> = None | Some(value: T)

  /** What a fallible Rust function does: it returns `Ok`, returns `Err`
      with a message, or panics (`expect`, `unwrap`, an index out of range). */
  datatype Outcome<T> = Ok(value: T) | Err(message: string) | Panic(message: string)

  /** Collecting results with `?`: one more result appended to those so far;
      the first failure is kept and everything after it is ignored. */
  function Append<T>(sofar: Outcome<seq<T>>, next: Outcome<T>): (r: Outcome<seq<T>>)
    ensures !sofar.Ok? ==> r == sofar
    ensures sofar.Ok? && next.Ok? ==> r == Ok(sofar.value + [next.value])
    ensures sofar.Ok? && !next.Ok? ==> !r.Ok? && r.message == next.message && (r.Err? <==> next.Err?)
  {
    match sofar
    case Ok(xs) =>
      (match next
       case Ok(x) => Ok(xs + [x])
       case Err(m) => Err(m)
       case Panic(m) => Panic(m))
    case Err(m) => Err(m)
    case Panic(m) => Panic(m)
  }

  /** The results of steps `0 .. k` collected with `?`: everything up to the
      first failure, or that failure. */
  function Collect<T>(step: nat -> Outcome<T>, k: nat): Outcome<seq<T>>
  {
    if k == 0 then Ok([]) else Append(Collect(step, k - 1), step(k - 1))
  }

  /** A failure stops the collection: later steps change nothing. */
  lemma {:induction false} CollectStops<T>(step: nat -> Outcome<T>, k: nat, n: nat)
    requires k <= n && !Collect(step, k).Ok?
    ensures Collect(step, n) == Collect(step, k)
    decreases n
  {
    if k < n {
      CollectStops(step, k, n - 1);
    }
  }

  /** The collection succeeds exactly when every step does, and then holds
      one result per step, in step order. */
  lemma {:induction false} CollectOk<T>(step: nat -> Outcome<T>, k: nat)
    ensures Collect(step, k).Ok? <==> forall j :: 0 <= j < k ==> step(j).Ok?
    ensures Collect(step, k).Ok? ==>
              |Collect(step, k).value| == k && forall j :: 0 <= j < k ==> Collect(step, k).value[j] == step(j).value
  {
    if k > 0 {
      CollectOk(step, k - 1);
    }
  }

  /** One past the largest `u32`. */
  const U32_LIMIT: nat := 0x1_0000_0000
  /** One past the largest `i32`. */
  const I32_LIMIT: nat := 0x8000_0000
  /** The largest `usize` on a 64-bit target. */
  const USIZE_MAX: nat := 0xFFFF_FFFF_FFFF_FFFF

  function Min(a: int, b: int): int { if a <= b then a else b }

  /** Integer ceiling of `a / b`, for `b > 0`. */
  function CeilDiv(a: nat, b: nat): (q: nat)
    requires b > 0
    ensures q * b >= a
    ensures q == 0 || (q - 1) * b < a
  {
    (a + b - 1) / b
  }

  // ---------------------------------------------------------------------
  // Frames

  /** `image::flat::SampleLayout`: how the samples of an image are laid out
      in its flat buffer (counts and strides in samples). */
  datatype Layout = Layout(channels: nat, channelStride: nat, width: nat, widthStride: nat,
                           height: nat, heightStride: nat)

  /** A decoded 8-bit image: its layout and its flat sample buffer. */
  datatype Frame = Frame(layout: Layout, samples: seq<byte>)

  /** `image::open`: the decoded frame, or the error that `?` passes on. */
  datatype Opened = Opened(frame: Frame) | OpenFailed(error: string)

  /** What slicing returns: the band files in band order, the layout of
      the frames, and the number of frames. */
  datatype SliceResult = SliceResult(paths: seq<string>, layout: Layout, sizeHint: nat)

  // ---------------------------------------------------------------------
  // `str::split('/')`

  /** The inverse of `Split`: the parts put back together with `sep`. */
  function Join(parts: seq<string>, sep: char): string
    requires |parts| >= 1
  {
    if |parts| == 1 then parts[0] else parts[0] + [sep] + Join(parts[1..], sep)
  }

  /** `str::split(sep)` collected into a vector: never empty, no part holds
      the separator, and joining the parts gives back the input. */
  function Split(s: string, sep: char): (parts: seq<string>)
    ensures |parts| >= 1
    ensures forall i :: 0 <= i < |parts| ==> sep !in parts[i]
    ensures Join(parts, sep) == s
    ensures sep !in s ==> parts == [s]
  {
    if |s| == 0 then [""]
    else
      var rest := Split(s[1..], sep);
      if s[0] == sep then
        assert Join([""] + rest, sep) == [sep] + Join(rest, sep);
        [""] + rest
      else
        var parts := [[s[0]] + rest[0]] + rest[1..];
        assert parts[1..] == rest[1..];
        parts
  }

  /** Splitting at the first separator: a prefix without the separator becomes
      the first part and the rest is split on its own. */
  lemma {:induction false} SplitPrefix(a: string, sep: char, rest: string)
    requires sep !in a
    ensures Split(a + [sep] + rest, sep) == [a] + Split(rest, sep)
  {
    var s := a + [sep] + rest;
    if |a| == 0 {
      assert s[1..] == rest;
    } else {
      assert s[1..] == a[1..] + [sep] + rest;
      SplitPrefix(a[1..], sep, rest);
      assert [a[0]] + a[1..] == a;
    }
  }

  /** A keyword and a field, joined by the separator, split back into the two. */
  lemma SplitTwo(a: string, sep: char, b: string)
    requires sep !in a && sep !in b
    ensures Split(a + [sep] + b, sep) == [a, b]
  {
    SplitPrefix(a, sep, b);
  }

  /** Three fields joined by the separator split back into the three. */
  lemma SplitThree(a: string, b: string, c: string, sep: char)
    requires sep !in a && sep !in b && sep !in c
    ensures Split(a + [sep] + b + [sep] + c, sep) == [a, b, c]
  {
    SplitTwo(b, sep, c);
    SplitPrefix(a, sep, b + [sep] + c);
    assert a + [sep] + b + [sep] + c == a + [sep] + (b + [sep] + c);
  }

  // ---------------------------------------------------------------------
  // Numbers: `FromStr` for unsigned and signed integers, and decimal output

  predicate IsDigit(c: char) { '0' <= c <= '9' }

  predicate AllDigits(s: string) { forall i :: 0 <= i < |s| ==> IsDigit(s[i]) }

  /** The value of a string of decimal digits, most significant first. */
  function DigitsValue(s: string): nat
    requires AllDigits(s)
  {
    if |s| == 0 then 0 else 10 * DigitsValue(s[..|s| - 1]) + (s[|s| - 1] - '0') as nat
  }

  /** The decimal digits of `n` without leading zeros (`format!("{}", n)`). */
  function Decimal(n: nat): (s: string)
    ensures |s| >= 1 && AllDigits(s)
  {
    if n < 10 then [('0' as int + n) as char]
    else Decimal(n / 10) + [('0' as int + n % 10) as char]
  }

  /** `format!("{:0w}", n)`: `n` in decimal, left-padded with zeros to at least `w` characters. */
  function ZeroPadded(n: nat, w: nat): (s: string)
    ensures |s| >= w && AllDigits(s)
  {
    var d := Decimal(n);
    if |d| >= w then d else seq(w - |d|, _ => '0') + d
  }

  /** `u32::from_str` and `usize::from_str` with the type's `limit`: an
      optional '+', then one or more decimal digits whose value is below the limit. */
  function ParseUnsigned(s: string, limit: nat): (r: Option<nat>)
    ensures r.Some? ==> r.value < limit
  {
    var digits := if |s| > 0 && s[0] == '+' then s[1..] else s;
    if |digits| == 0 || !AllDigits(digits) || DigitsValue(digits) >= limit then None
    else Some(DigitsValue(digits))
  }

  /** `i32::from_str`: an optional sign, then one or more decimal digits, in range. */
  function ParseI32(s: string): (r: Option<int>)
    ensures r.Some? ==> -(I32_LIMIT as int) <= r.value < I32_LIMIT as int
  {
    if |s| > 0 && s[0] == '-' then
      var digits := s[1..];
      if |digits| == 0 || !AllDigits(digits) || DigitsValue(digits) > I32_LIMIT then None
      else Some(0 - DigitsValue(digits) as int)
    else
      match ParseUnsigned(s, I32_LIMIT)
      case None => None
      case Some(v) => Some(v as int)
  }

  /** `f32::from_str` on plain decimal notation: an optional sign, digits,
      optionally a '.' and more digits, at least one digit in all. The value
      is the exact decimal value (no f32 rounding). */
  function ParseReal(s: string): (r: Option<real>)
  {
    var neg := |s| > 0 && s[0] == '-';
    var body := if |s| > 0 && (s[0] == '-' || s[0] == '+') then s[1..] else s;
    var halves := Split(body, '.');
    var whole := halves[0];
    var frac := if |halves| >= 2 then halves[1] else "";
    if |halves| > 2 || !AllDigits(whole) || !AllDigits(frac) || |whole| + |frac| == 0 then None
    else
      var v := DigitsValue(whole) as real + DigitsValue(frac) as real / Pow10(|frac|) as real;
      Some(if neg then -v else v)
  }

  /** A digit string contains no separator. */
  lemma DigitsHaveNoSeparator(s: string, sep: char)
    requires AllDigits(s) && !IsDigit(sep)
    ensures sep !in s
  {
  }

  /** A number's decimal form reads back as that number. */
  lemma ParseRealDecimal(n: nat)
    ensures ParseReal(Decimal(n)) == Some(n as real)
  {
    var d := Decimal(n);
    DigitsHaveNoSeparator(d, '.');
    assert Split(d, '.') == [d];
    DecimalValue(n);
  }

  function Pow10(k: nat): (p: nat)
    ensures p >= 1
  {
    if k == 0 then 1 else 10 * Pow10(k - 1)
  }

  lemma {:induction false} DigitsValueAppend(s: string, c: char)
    requires AllDigits(s) && IsDigit(c)
    ensures AllDigits(s + [c]) && DigitsValue(s + [c]) == 10 * DigitsValue(s) + (c - '0') as nat
  {
    assert (s + [c])[..|s|] == s;
  }

  /** Reading back what `Decimal` writes gives the number. */
  lemma {:induction false} DecimalValue(n: nat)
    ensures DigitsValue(Decimal(n)) == n
  {
    if n >= 10 {
      DecimalValue(n / 10);
      DigitsValueAppend(Decimal(n / 10), ('0' as int + n % 10) as char);
    }
  }

  /** Leading zeros do not change a digit string's value. */
  lemma {:induction false} ZerosValue(k: nat, d: string)
    requires AllDigits(d)
    ensures AllDigits(seq(k, _ => '0') + d) && DigitsValue(seq(k, _ => '0') + d) == DigitsValue(d)
  {
    if |d| == 0 {
      assert seq(k, _ => '0') + d == seq(k, _ => '0');
      ZerosValueOnly(k);
    } else {
      var z := seq(k, _ => '0');
      var init := d[..|d| - 1];
      ZerosValue(k, init);
      assert z + d == (z + init) + [d[|d| - 1]];
      DigitsValueAppend(z + init, d[|d| - 1]);
      assert d == init + [d[|d| - 1]];
      DigitsValueAppend(init, d[|d| - 1]);
    }
  }

  lemma {:induction false} ZerosValueOnly(k: nat)
    ensures AllDigits(seq(k, _ => '0')) && DigitsValue(seq(k, _ => '0')) == 0
  {
    if k > 0 {
      ZerosValueOnly(k - 1);
      assert seq(k, _ => '0') == seq(k - 1, _ => '0') + ['0'];
      DigitsValueAppend(seq(k - 1, _ => '0'), '0');
    }
  }

  /** Every number below the limit is read back from its decimal form. */
  lemma ParseDecimal(n: nat, limit: nat)
    requires n < limit
    ensures ParseUnsigned(Decimal(n), limit) == Some(n)
  {
    ParseZeroPadded(n, 0, limit);
  }

  /** Every number below the limit is read back from its decimal form, also
      when it is zero-padded as in the band file names. */
  lemma ParseZeroPadded(n: nat, w: nat, limit: nat)
    requires n < limit
    ensures ParseUnsigned(ZeroPadded(n, w), limit) == Some(n)
  {
    var d := Decimal(n);
    DecimalValue(n);
    if |d| < w {
      ZerosValue(w - |d|, d);
    }
  }
}
