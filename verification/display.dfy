/** `XCBParseDisplay`: splitting a display name `[host]:display[.screen]`
    into the host, the display number and the screen number. */
module Display {
  import opened Wrappers
  import opened CTypes
  import opened CString

  /** A parsed display name. An empty host means the local Unix-domain
      transport. */
  datatype DisplaySpec = DisplaySpec(host: string, display: Int32, screen: Int32)

  /** Why a display name was refused. The C function reports every one of
      them as the return value 0. */
  datatype ParseFailure =
    | NoDisplay             // no name and no DISPLAY variable
    | MissingDisplayNumber  // no ':' or no digits after the last ':'
    | InvalidScreen         // something other than ".screen" after the display number
    | OutOfMemory           // the host copy could not be allocated

  /** The name actually parsed: the argument, unless it is NULL or empty, in
      which case the value of the DISPLAY variable (`env`). */
  function DisplayName(name: Option<string>, env: Option<string>): (r: Option<string>)
    ensures name.Some? && name.value != [] ==> r == name
    ensures name.None? || name.value == [] ==> r == env
  {
    if name.Some? && name.value != [] then name else env
  }

  /** `host` is the part of `s` before its last ':'. */
  predicate HostOf(s: string, host: string) {
    |host| < |s| && s[..|host|] == host && s[|host|] == ':' && ':' !in s[|host| + 1..]
  }

  /** Parsing a display name, everything up to the copy of the host. */
  function ParseText(s: string): (r: Result<DisplaySpec, ParseFailure>)
    ensures r.Ok? ==> HostOf(s, r.value.host)
    ensures ':' !in s ==> r == Err(MissingDisplayNumber)
    ensures r.Err? ==> r.error == MissingDisplayNumber || r.error == InvalidScreen
  {
    match LastIndex(s, ':')
    case None => Err(MissingDisplayNumber)
    case Some(colon) => ParseNumbers(s[..colon], s[colon + 1..])
  }

  /** The display number and the optional screen number in `rest`, the text
      after the last ':'. */
  function ParseNumbers(host: string, rest: string): (r: Result<DisplaySpec, ParseFailure>)
    ensures r.Ok? ==> r.value.host == host
    ensures r.Err? ==> r.error == MissingDisplayNumber || r.error == InvalidScreen
    ensures r == Err(MissingDisplayNumber) <==> !StartsNumeral(rest)
  {
    NumeralStarts(rest);
    var display := StrToUL(rest);
    if display.used == 0 then Err(MissingDisplayNumber)
    else if display.used == |rest| then
      Ok(DisplaySpec(host, ULongToInt(display.value), 0))
    else if rest[display.used] != '.' then Err(InvalidScreen)
    else
      var tail := rest[display.used + 1..];
      var screen := StrToUL(tail);
      if screen.used == 0 || screen.used != |tail| then Err(InvalidScreen)
      else Ok(DisplaySpec(host, ULongToInt(display.value), ULongToInt(screen.value)))
  }

  /** `XCBParseDisplay` up to the allocation: the name falls back to DISPLAY
      and is then parsed. */
  function ParseDisplay(name: Option<string>, env: Option<string>): (r: Result<DisplaySpec, ParseFailure>)
    ensures r == Err(NoDisplay) <==> DisplayName(name, env).None?
    ensures r.Err? ==> r.error != OutOfMemory
  {
    match DisplayName(name, env)
    case None => Err(NoDisplay)
    case Some(s) => ParseText(s)
  }

  // ---------------------------------------------------------------------------
  // The call with its out-parameters

  /** The caller's variables the call may write: `*host`, `*displayp`, and
      `*screenp` (`None` when `screenp` is NULL). */
  datatype Slots = Slots(host: Option<string>, display: Int32, screen: Option<Int32>)

  datatype Outcome = Outcome(ret: int, slots: Slots)

  /** The whole call. `allocates` says whether `malloc` succeeds; `before`
      holds the caller's variables on entry. */
  function ParseDisplayCall(name: Option<string>, env: Option<string>, allocates: bool, before: Slots): (o: Outcome)
    ensures o.ret == 0 || o.ret == 1
    ensures o.ret == 1 <==> ParseDisplay(name, env).Ok? && allocates
    ensures ParseDisplay(name, env).Err? ==> o.slots == before
    ensures ParseDisplay(name, env).Ok? && !allocates ==> o.slots == before.(host := None)
    ensures o.ret == 1 ==>
      var spec := ParseDisplay(name, env).value;
      o.slots.host == Some(spec.host) && o.slots.display == spec.display
      && o.slots.screen == (if before.screen.Some? then Some(spec.screen) else None)
  {
    match ParseDisplay(name, env)
    case Err(_) => Outcome(0, before)
    case Ok(spec) =>
      if !allocates then Outcome(0, before.(host := None))
      else
        var screen := if before.screen.Some? then Some(spec.screen) else None;
        Outcome(1, Slots(Some(spec.host), spec.display, screen))
  }

  // ---------------------------------------------------------------------------
  // Properties

  /** A non-empty name is parsed as given, whatever DISPLAY holds. */
  lemma NameOverridesEnvironment(name: string, env: Option<string>)
    requires name != []
    ensures ParseDisplay(Some(name), env) == ParseText(name)
  {
  }

  /** A missing or empty name is replaced by DISPLAY. */
  lemma EnvironmentFallback(name: Option<string>, env: Option<string>)
    requires name.None? || name.value == []
    ensures ParseDisplay(name, env) == if env.None? then Err(NoDisplay) else ParseText(env.value)
  {
  }

  /** The text after the last ':' is what `ParseNumbers` sees. */
  lemma ParseSplit(host: string, rest: string)
    requires ':' !in rest
    ensures ParseText(host + ":" + rest) == ParseNumbers(host, rest)
  {
    var s := host + ":" + rest;
    assert s[|host| + 1..] == rest;
    LastIndexAt(s, ':', |host|);
    assert s[..|host|] == host;
  }

  /** Reading back what `printf("%s:%d.%d")` writes gives the same host,
      display and screen, for every host: one containing ':' too, since
      the name is split at its last ':'. */
  lemma ParseFormatted(host: string, display: Int32, screen: Int32)
    ensures ParseText(host + ":" + FormatInt(display) + "." + FormatInt(screen))
      == Ok(DisplaySpec(host, display, screen))
  {
    var d, t := FormatInt(display), FormatInt(screen);
    var rest := d + "." + t;
    FormatIntHasNoSeparator(display);
    FormatIntHasNoSeparator(screen);
    NoColonAround(d, t);
    assert host + ":" + d + "." + t == host + ":" + rest;
    ParseSplit(host, rest);
    NumbersFormatted(host, display, screen);
  }

  lemma NumbersFormatted(host: string, display: Int32, screen: Int32)
    ensures ParseNumbers(host, FormatInt(display) + "." + FormatInt(screen))
      == Ok(DisplaySpec(host, display, screen))
  {
    FormatIntConversion(display);
    FormatIntConversion(screen);
    NumbersWithScreen(host, FormatInt(display), FormatInt(screen));
  }

  /** Any two digit runs around a '.' after the last ':' give their decimal
      values as display and screen, leading zeros and values beyond `int`
      included: saturated at ULONG_MAX and narrowed to `int`. */
  lemma DigitsRoundTrip(host: string, d: string, s: string)
    requires IsDigits(d) && IsDigits(s)
    ensures ParseText(host + ":" + d + "." + s)
      == Ok(DisplaySpec(host, ULongToInt(Signed(false, DigitsValue(d))), ULongToInt(Signed(false, DigitsValue(s)))))
  {
    DigitsHaveNoSeparator(d);
    DigitsHaveNoSeparator(s);
    NoColonAround(d, s);
    assert host + ":" + d + "." + s == host + ":" + (d + "." + s);
    ParseSplit(host, d + "." + s);
    assert "" + "" + d == d && "" + "" + s == s;
    NumeralValue("", "", d);
    NumeralValue("", "", s);
    NumeralConsumed(d);
    NumeralConsumed(s);
    NumbersWithScreen(host, d, s);
  }

  /** Leading zeros are read as decimal: "h:007.01" is display 7, screen 1. */
  lemma LeadingZerosExample(s: string)
    requires s == "h:007.01"
    ensures ParseText(s) == Ok(DisplaySpec("h", 7, 1))
  {
    assert s == "h" + ":" + "007" + "." + "01";
    var zz, z := "007"[..2], "01"[..1];
    assert zz == "00" && zz[..1] == "0" && z == "0";
    assert DigitsValue(zz) == 0 && DigitsValue(z) == 0;
    assert DigitsValue("007") == 7 && DigitsValue("01") == 1;
    DigitsRoundTrip("h", "007", "01");
  }

  /** Two numerals around a '.' give the display and the screen. */
  lemma NumbersWithScreen(host: string, a: string, b: string)
    requires IsNumeral(a) && IsNumeral(b)
    ensures ParseNumbers(host, a + "." + b)
      == Ok(DisplaySpec(host, ULongToInt(StrToUL(a).value), ULongToInt(StrToUL(b).value)))
  {
    var rest := a + "." + b;
    assert rest == a + ("." + b);
    NumeralThenOther(a, "." + b);
    NumeralConsumed(a);
    NumeralConsumed(b);
    assert rest[|a|] == '.' && rest[|a| + 1..] == b;
  }

  /** A numeral alone gives the display, and the screen defaults to 0. */
  lemma NumbersWithoutScreen(host: string, a: string)
    requires IsNumeral(a)
    ensures ParseNumbers(host, a) == Ok(DisplaySpec(host, ULongToInt(StrToUL(a).value), 0))
  {
    NumeralConsumed(a);
  }

  /** Without a screen part the screen number is 0. */
  lemma ParseFormattedDisplay(host: string, display: Int32)
    ensures ParseText(host + ":" + FormatInt(display)) == Ok(DisplaySpec(host, display, 0))
  {
    FormatIntHasNoSeparator(display);
    ParseSplit(host, FormatInt(display));
    FormatIntConversion(display);
    NumbersWithoutScreen(host, FormatInt(display));
  }

  lemma NoColonAround(a: string, b: string)
    requires ':' !in a && ':' !in b
    ensures ':' !in a + "." + b
  {
    var rest := a + "." + b;
    assert forall k :: 0 <= k < |rest| ==> rest[k] in a || rest[k] == '.' || rest[k] in b;
  }

  /** Without a numeral after the last ':' there is no display number. */
  lemma MissingNumber(host: string, rest: string)
    requires ':' !in rest && !StartsNumeral(rest)
    ensures ParseText(host + ":" + rest) == Err(MissingDisplayNumber)
  {
    ParseSplit(host, rest);
  }

  // ---------------------------------------------------------------------------
  // The accepted names

  /** The text after the last ':' of an accepted name: a numeral, or two
      numerals joined by '.'. */
  predicate DisplayNumbers(rest: string) {
    IsNumeral(rest) ||
    exists j :: 0 <= j < |rest| && rest[j] == '.' && IsNumeral(rest[..j]) && IsNumeral(rest[j + 1..])
  }

  /** `[host]:numeral[.numeral]`, split at the last ':'. */
  predicate IsDisplayName(s: string) {
    exists colon :: 0 <= colon < |s| && s[colon] == ':' && ':' !in s[colon + 1..] && DisplayNumbers(s[colon + 1..])
  }

  /** The parser accepts exactly the names of the grammar. */
  lemma ParseAccepts(s: string)
    ensures ParseText(s).Ok? <==> IsDisplayName(s)
  {
    match LastIndex(s, ':')
    case None =>
    case Some(colon) =>
      NumbersAccepted(s[..colon], s[colon + 1..]);
      if IsDisplayName(s) {
        var c :| 0 <= c < |s| && s[c] == ':' && ':' !in s[c + 1..] && DisplayNumbers(s[c + 1..]);
        LastIndexAt(s, ':', c);
      }
  }

  /** The text after the colon is accepted exactly when it has the shape of
      the grammar. */
  lemma NumbersAccepted(host: string, rest: string)
    ensures ParseNumbers(host, rest).Ok? <==> DisplayNumbers(rest)
  {
    if ParseNumbers(host, rest).Ok? {
      AcceptedNumbersHaveShape(host, rest);
    }
    if DisplayNumbers(rest) {
      ShapedNumbersAccepted(host, rest);
    }
  }

  lemma ShapedNumbersAccepted(host: string, rest: string)
    requires DisplayNumbers(rest)
    ensures ParseNumbers(host, rest).Ok?
  {
    if IsNumeral(rest) {
      NumbersWithoutScreen(host, rest);
    } else {
      var j :| 0 <= j < |rest| && rest[j] == '.' && IsNumeral(rest[..j]) && IsNumeral(rest[j + 1..]);
      ScreenAt(host, rest, j);
    }
  }

  lemma ScreenAt(host: string, rest: string, j: nat)
    requires j < |rest| && rest[j] == '.' && IsNumeral(rest[..j]) && IsNumeral(rest[j + 1..])
    ensures ParseNumbers(host, rest).Ok?
  {
    assert rest == rest[..j] + "." + rest[j + 1..];
    NumbersWithScreen(host, rest[..j], rest[j + 1..]);
  }

  lemma AcceptedNumbersHaveShape(host: string, rest: string)
    requires ParseNumbers(host, rest).Ok?
    ensures DisplayNumbers(rest)
  {
    var u := StrToUL(rest).used;
    ConsumedIsNumeral(rest);
    if u < |rest| {
      NumeralConsumed(rest[u + 1..]);
      assert rest[u] == '.' && IsNumeral(rest[..u]) && IsNumeral(rest[u + 1..]);
    } else {
      assert rest[..u] == rest;
    }
  }

  /** After the display number, anything but '.' and a numeral is an
      invalid screen. */
  lemma InvalidScreenAfter(host: string, a: string, tail: string)
    requires IsNumeral(a) && ':' !in a + tail
    requires tail != [] && !IsDigit(tail[0])
    requires tail[0] != '.' || !IsNumeral(tail[1..])
    ensures ParseText(host + ":" + (a + tail)) == Err(InvalidScreen)
  {
    var rest := a + tail;
    ParseSplit(host, rest);
    NumeralThenOther(a, tail);
    NumeralConsumed(a);
    assert rest[|a|] == tail[0] && rest[|a| + 1..] == tail[1..];
    NumeralConsumed(tail[1..]);
  }

  // ---------------------------------------------------------------------------
  // Examples
  //
  // An example whose name is longer than a couple of characters takes the
  // name as a parameter fixed by its `requires`: a string literal inside the
  // goal makes the solver unfold the parser on it eagerly, while a parameter
  // lets the general lemmas do the work.

  lemma SmallFormats()
    ensures FormatInt(0) == "0" && FormatInt(1) == "1"
    ensures FormatInt(2) == "2" && FormatInt(10) == "10"
  {
  }

  /** ":0" is display 0, screen 0 on the local transport. */
  lemma LocalExample()
    ensures ParseText(":0") == Ok(DisplaySpec("", 0, 0))
  {
    SmallFormats();
    ParseFormattedDisplay("", 0);
    assert "" + ":" + "0" == ":0";
  }

  /** "host:10.2" is display 10, screen 2 on host "host". */
  lemma RemoteExample(s: string)
    requires s == "host:10.2"
    ensures ParseText(s) == Ok(DisplaySpec("host", 10, 2))
  {
    SmallFormats();
    assert s == "host" + ":" + "10" + "." + "2";
    ParseFormatted("host", 10, 2);
  }

  /** A host may contain ':' itself: "::1:0.0" is host "::1", display 0,
      screen 0. */
  lemma ColonHostExample(s: string)
    requires s == "::1:0.0"
    ensures ParseText(s) == Ok(DisplaySpec("::1", 0, 0))
  {
    SmallFormats();
    assert s == "::1" + ":" + "0" + "." + "0";
    ParseFormatted("::1", 0, 0);
  }

  /** An empty name falls back to DISPLAY; with none set, there is nothing to parse. */
  lemma FallbackExample()
    ensures ParseDisplay(Some(""), Some(":1")) == Ok(DisplaySpec("", 1, 0))
    ensures ParseDisplay(Some(""), None) == Err(NoDisplay)
  {
    SmallFormats();
    ParseFormattedDisplay("", 1);
    assert "" + ":" + "1" == ":1";
  }

  /** Neither ":" nor a name without a colon has a display number. */
  lemma MissingNumberExamples()
    ensures ParseText(":") == Err(MissingDisplayNumber)
    ensures ParseText("novalidcolon") == Err(MissingDisplayNumber)
  {
    MissingNumber("", "");
    assert "" + ":" + "" == ":";
    NoColonRefused("novalidcolon");
  }

  lemma NoColonRefused(s: string)
    requires s == "novalidcolon"
    ensures ParseText(s) == Err(MissingDisplayNumber)
  {
    assert forall k :: 0 <= k < |s| ==> 'a' <= s[k] <= 'z';
  }

  /** "h:0.", "h:0.x", "h:0.1x" and "h:0x" have an invalid screen part. */
  lemma InvalidScreenExamples(s: string)
    requires s == "h:0." || s == "h:0.x" || s == "h:0.1x" || s == "h:0x"
    ensures ParseText(s) == Err(InvalidScreen)
  {
    assert IsNumeral("0");
    var tail := s[3..];
    assert s == "h" + ":" + ("0" + tail);
    if tail == ".1x" {
      assert !IsDigit(tail[1..][1]);
    }
    InvalidScreenAfter("h", "0", tail);
  }

  /** A minus sign before the display number yields a negative display. */
  lemma NegativeDisplayExample(s: string)
    requires s == ":-1"
    ensures ParseText(s) == Ok(DisplaySpec("", -1, 0))
  {
    assert FormatInt(-1) == "-1";
    ParseFormattedDisplay("", -1);
    assert s == "" + ":" + FormatInt(-1);
  }

  /** White space and a plus sign before the display number are skipped. */
  lemma SpacedDisplayExample(s: string)
    requires s == ": +2"
    ensures ParseText(s) == Ok(DisplaySpec("", 2, 0))
  {
    assert s == "" + ":" + (" " + "+" + "2");
    SignedDisplay("", " ", "+", "2");
  }

  /** White space, an optional sign and digits after the last ':' give the
      display number `strtoul` converts: saturated, negated after '-', and
      narrowed to `int`. */
  lemma SignedDisplay(host: string, ws: string, sign: string, d: string)
    requires forall k :: 0 <= k < |ws| ==> IsSpace(ws[k])
    requires sign == "" || sign == "+" || sign == "-"
    requires IsDigits(d)
    ensures ParseText(host + ":" + (ws + sign + d))
      == Ok(DisplaySpec(host, ULongToInt(Signed(sign == "-", DigitsValue(d))), 0))
  {
    var rest := ws + sign + d;
    NumeralValue(ws, sign, d);
    NumeralConsumed(rest);
    DigitsHaveNoSeparator(d);
    assert forall k :: 0 <= k < |rest| ==> rest[k] in ws || rest[k] in sign || rest[k] in d;
    NumeralParsed(host, rest);
  }

  /** A numeral alone after the last ':' is the display number. */
  lemma NumeralParsed(host: string, rest: string)
    requires ':' !in rest && IsNumeral(rest)
    ensures ParseText(host + ":" + rest) == Ok(DisplaySpec(host, ULongToInt(StrToUL(rest).value), 0))
  {
    ParseSplit(host, rest);
    NumbersWithoutScreen(host, rest);
  }

  /** Any decimal display number is accepted: above ULONG_MAX it saturates,
      and the `unsigned long` is then narrowed to `int` modulo 2^32. */
  lemma LargeDisplay(host: string, n: nat)
    ensures ParseText(host + ":" + FormatNat(n))
      == Ok(DisplaySpec(host, ULongToInt(if n > ULongMax then ULongMax else n), 0))
  {
    var digits := FormatNat(n);
    DigitsHaveNoSeparator(digits);
    assert IsNumeral(digits);
    NumeralParsed(host, digits);
    DigitsConversion(digits, false);
  }

  /** A display number beyond ULONG_MAX ends up as display -1. */
  lemma SaturatedDisplay(host: string, n: nat)
    requires n > ULongMax
    ensures ParseText(host + ":" + FormatNat(n)) == Ok(DisplaySpec(host, -1, 0))
  {
    LargeDisplay(host, n);
    SaturatedIsMinusOne();
  }
}
