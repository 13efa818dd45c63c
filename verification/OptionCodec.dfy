/** Option lists: the escaping encoder and the decoder that works in place. */
module OptionCodec {
  import opened Prelude

  const NUL: char := '\0'

  // ---------------------------------------------------------------- the encoder

  predicate Special(c: char) { c == ',' || c == '\\' }

  function EscapedChar(c: char): string {
    if Special(c) then ['\\', c] else [c]
  }

  /** An option with its commas and backslashes escaped. */
  function Escaped(s: string): string {
    if s == [] then [] else EscapedChar(s[0]) + Escaped(s[1..])
  }

  lemma {:induction false} EscapedAppend(s: string, c: char)
    ensures Escaped(s + [c]) == Escaped(s) + EscapedChar(c)
    decreases |s|
  {
    hide EscapedChar;
    if s == [] {
      assert s + [c] == [c] && [c][1..] == [];
      assert Escaped([c]) == EscapedChar(c) + Escaped([]);
    } else {
      EscapedAppend(s[1..], c);
      assert (s + [c])[0] == s[0] && (s + [c])[1..] == s[1..] + [c];
      assert EscapedChar(s[0]) + (Escaped(s[1..]) + EscapedChar(c)) ==
          (EscapedChar(s[0]) + Escaped(s[1..])) + EscapedChar(c);
    }
  }

  /** What adding one option does to the list so far (None is a NULL pointer). */
  function Added(opts: Option<string>, opt: string, esc: bool): string {
    var text := if esc then Escaped(opt) else opt;
    if opts.Some? && opts.value != [] then opts.value + [','] + text else text
  }

  /** Write one character at the end of what has been written. */
  method Put(buf: array<char>, d: nat, c: char)
    requires d < buf.Length
    modifies buf
    ensures buf[..d + 1] == old(buf[..d]) + [c] && buf[d + 1..] == old(buf[d + 1..])
  {
    buf[d] := c;
  }

  lemma {:induction false} EscapedNone(s: string)
    ensures Escaped(s[..0]) == []
  {
  }

  /** The copying loop of `add_opt_common`. */
  method PutOpt(buf: array<char>, start: nat, opt: string, esc: bool) returns (d: nat)
    requires start + 2 * |opt| < buf.Length
    modifies buf
    ensures start <= d <= start + 2 * |opt|
    ensures buf[..d] == old(buf[..start]) + (if esc then Escaped(opt) else opt)
  {
    hide Escaped, EscapedChar;
    ghost var head := buf[..start];
    d := start;
    EscapedNone(opt);
    for i := 0 to |opt|
      invariant start <= d <= start + 2 * i
      invariant buf[..d] == head + (if esc then Escaped(opt[..i]) else opt[..i])
    {
      assert opt[..i + 1] == opt[..i] + [opt[i]];
      EscapedAppend(opt[..i], opt[i]);
      d := PutChar(buf, d, opt[i], esc);
    }
    assert opt[..|opt|] == opt;
  }

  /** One character of an option, with its escape. */
  method PutChar(buf: array<char>, start: nat, c: char, esc: bool) returns (d: nat)
    requires start + 2 < buf.Length
    modifies buf
    ensures start < d <= start + 2 && buf[..d] == old(buf[..start]) + (if esc then EscapedChar(c) else [c])
  {
    d := start;
    if esc && (c == ',' || c == '\\') {
      Put(buf, d, '\\');
      d := d + 1;
    }
    Put(buf, d, c);
    d := d + 1;
  }

  /** `add_opt_common`: the list grows in a buffer allocated for the worst case, every write inside it, or stays
      as it is if there is no memory for that. */
  method AddOpt(opts: Option<string>, opt: string, esc: bool, memory: bool) returns (r: Option<string>, ok: bool)
    ensures ok == memory
    ensures r == if ok then Some(Added(opts, opt, esc)) else opts
  {
    hide Escaped;
    if !memory { return opts, false; }
    var list := if opts.Some? then opts.value else [];
    var buf := Enlarged(list, |list| + 1 + |opt| * 2 + 1);
    var d := 0;
    if |list| > 0 {
      Put(buf, |list|, ',');
      d := |list| + 1;
    }
    assert buf[..d] == if list == [] then [] else list + [','];
    d := PutOpt(buf, d, opt, esc);
    ghost var text := buf[..d];
    assert text == Added(opts, opt, esc);
    buf[d] := NUL;
    assert buf[..d] == text;
    return Some(buf[..d]), true;
  }

  /** The `realloc`. */
  method Enlarged(list: string, size: nat) returns (buf: array<char>)
    requires |list| < size
    ensures fresh(buf) && buf.Length == size && buf[..|list|] == list
  {
    buf := new char[size];
    forall i | 0 <= i < |list| {
      buf[i] := list[i];
    }
  }

  // ---------------------------------------------------------------- the decoder

  predicate Octal3(s: string) {
    |s| >= 3 && '0' <= s[0] <= '3' && '0' <= s[1] <= '7' && '0' <= s[2] <= '7'
  }

  function OctalValue(s: string): char
    requires Octal3(s)
  {
    ((s[0] as int - '0' as int) * 64 + (s[1] as int - '0' as int) * 8 + (s[2] as int - '0' as int)) as char
  }

  /** The options in `rest`, the first of which begins with what `cur` has gathered. */
  function DecodeFrom(rest: string, cur: string): seq<string>
    decreases |rest|
  {
    if rest == [] then [cur]
    else if rest[0] == ',' then [cur] + DecodeFrom(rest[1..], [])
    else if rest[0] == '\\' && |rest| > 1 then
      if Octal3(rest[1..]) then DecodeFrom(rest[4..], cur + [OctalValue(rest[1..])])
      else DecodeFrom(rest[2..], cur + [rest[1]])
    else DecodeFrom(rest[1..], cur + [rest[0]])
  }

  function Decode(s: string): seq<string> {
    DecodeFrom(s, [])
  }

  /** A C string ends at its first NUL (an octal escape can put one inside). */
  function CString(s: string): string {
    if s == [] || s[0] == NUL then [] else [s[0]] + CString(s[1..])
  }

  /** What `process_gopt` says to an option, which may depend on the options it has seen. */
  type Acceptance = (seq<string>, string) -> bool

  /** The options that reach `process_gopt`, after those in `done`: up to and including the first it rejects. */
  function Processed(done: seq<string>, options: seq<string>, accepts: Acceptance): seq<string>
    decreases |options|
  {
    if options == [] then done
    else
      var option := CString(options[0]);
      if accepts(done, option) then Processed(done + [option], options[1..], accepts) else done + [option]
  }

  /** Every option that was passed on was accepted. */
  ghost predicate AllAccepted(seen: seq<string>, accepts: Acceptance) {
    forall i :: 0 <= i < |seen| ==> accepts(seen[..i], seen[i])
  }

  /** One turn of the decoder on text that is not at an option's end: the character it writes and how many it
      reads. */
  function Unit(rest: string): (r: (char, nat))
    requires rest != [] && rest[0] != ','
    ensures 1 <= r.1 <= |rest|
  {
    if rest[0] == '\\' && |rest| > 1 then
      if Octal3(rest[1..]) then (OctalValue(rest[1..]), 4) else (rest[1], 2)
    else (rest[0], 1)
  }

  /** The options from position `s` on, the first of which begins with `cur`. */
  ghost function Rest(text: string, s: nat, cur: string): seq<string>
    requires s <= |text|
  {
    DecodeFrom(text[s..], cur)
  }

  lemma {:induction false} UnitDecodes(text: string, s: nat, cur: string)
    requires s < |text| && text[s] != ','
    ensures text[s..] != [] && text[s..][0] == text[s]
    ensures var (c, len) := Unit(text[s..]); s + len <= |text| && Rest(text, s, cur) == Rest(text, s + len, cur + [c])
  {
    var (c, len) := Unit(text[s..]);
    assert text[s..][len..] == text[s + len..];
  }

  /** What the decoder reads at position `s` of the buffer, where the text is still intact. */
  method ReadUnit(a: array<char>, s: nat, n: nat, ghost text: string) returns (c: char, len: nat)
    requires a.Length == n + 1 && |text| == n && s < n && text[s] != ',' && (forall i :: 0 <= i < n ==> text[i] != NUL)
    requires Intact(a[..], text, s)
    ensures (c, len) == Unit(text[s..])
  {
    ghost var rest := text[s..];
    assert forall i :: s <= i <= n ==> a[i] == a[..][i];
    assert forall i :: 0 <= i < |rest| ==> rest[i] == a[s + i];
    assert |rest| > 1 ==> forall i :: 0 <= i < |rest| - 1 ==> rest[1..][i] == rest[i + 1];
    if a[s] == '\\' && a[s + 1] != NUL {
      if '0' <= a[s + 1] <= '3' && '0' <= a[s + 2] <= '7' && '0' <= a[s + 3] <= '7' {
        var zero := '0' as int;
        c := ((a[s + 1] as int - zero) * 64 + (a[s + 2] as int - zero) * 8 + (a[s + 3] as int - zero)) as char;
        len := 4;
      } else {
        c, len := a[s + 1], 2;
      }
    } else {
      c, len := a[s], 1;
    }
  }

  /** The decoder at read position `s` and write position `d`: the write position has not passed the read
      position, the part written is `cur`, and the part not yet read is still the text. */
  ghost predicate At(b: seq<char>, text: string, s: nat, d: nat, cur: string) {
    d <= s <= |text| && Intact(b, text, s) && b[..d] == cur && forall i :: 0 <= i < |text| ==> text[i] != NUL
  }

  lemma {:induction false} AtReads(b: seq<char>, text: string, s: nat, d: nat, cur: string)
    requires At(b, text, s, d, cur)
    ensures s <= |text| && |b| == |text| + 1 && b[s] == if s < |text| then text[s] else NUL
    ensures b[s] == NUL <==> s == |text|
  {
  }

  /** `process_real_option_group`: the options are decoded into the front of the very buffer they are read
      from. The write position never passes the read position. */
  method DecodeInPlace(a: array<char>, n: nat, accepts: Acceptance) returns (seen: seq<string>, ok: bool)
    requires a.Length == n + 1 && a[n] == NUL && (forall i :: 0 <= i < n ==> a[i] != NUL)
    modifies a
    ensures seen == Processed([], Decode(old(a[..n])), accepts)
    ensures ok <==> AllAccepted(seen, accepts)
  {
    ghost var text := a[..n];
    ghost var cur: string := [];
    var s, d, end := 0, 0, false;
    seen, ok := [], true;
    assert text[0..] == text && At(a[..], text, 0, 0, []) && Rest(text, 0, []) == Decode(text);
    hide Processed, Rest, Decode, CString, At, AllAccepted;
    AcceptedNone(accepts);
    while !end
      invariant if end then seen == Processed([], Decode(text), accepts) else At(a[..], text, s, d, cur)
      invariant !end ==> s <= n && Processed([], Decode(text), accepts) == Processed(seen, Rest(text, s, cur), accepts)
      invariant ok && AllAccepted(seen, accepts)
      decreases !end, n - s
    {
      AtReads(a[..], text, s, d, cur);
      assert a[s] == a[..][s];
      if a[s] == NUL { end := true; }
      if a[s] == ',' || end {
        var option := EndOption(a, d, s, text, cur, seen, accepts);
        AcceptedMore(seen, option, accepts);
        ok := accepts(seen, option);
        seen := seen + [option];
        if !ok { return; }
        d, cur := 0, [];
        s := s + 1;
      } else {
        var c, len := MoveUnit(a, s, d, text, cur);
        d, s, cur := d + 1, s + len, cur + [c];
      }
    }
  }

  lemma {:induction false} AcceptedNone(accepts: Acceptance)
    ensures AllAccepted([], accepts)
  {
  }

  lemma {:induction false} AcceptedMore(done: seq<string>, option: string, accepts: Acceptance)
    requires AllAccepted(done, accepts)
    ensures AllAccepted(done + [option], accepts) <==> accepts(done, option)
  {
    var all := done + [option];
    assert all[|done|] == option && all[..|done|] == done;
    assert forall i :: 0 <= i < |done| ==> all[i] == done[i] && all[..i] == done[..i];
  }

  /** The unread part of the buffer still holds the text and its terminator. */
  ghost predicate Intact(b: seq<char>, text: string, s: nat) {
    |b| == |text| + 1 && forall i :: s <= i < |b| ==> b[i] == if i < |text| then text[i] else NUL
  }

  /** Terminate the option that has been written and pass it on. */
  method EndOption(a: array<char>, d: nat, s: nat, ghost text: string, ghost cur: string, ghost seen: seq<string>,
                   accepts: Acceptance)
    returns (option: string)
    requires At(a[..], text, s, d, cur) && s < a.Length && (a[s] == ',' || a[s] == NUL)
    modifies a
    ensures option == CString(cur)
    ensures s < |text| ==> At(a[..], text, s + 1, 0, [])
    ensures Processed(seen, Rest(text, s, cur), accepts) ==
            if !accepts(seen, option) || s == |text| then seen + [option]
            else Processed(seen + [option], Rest(text, s + 1, []), accepts)
  {
    hide Processed, Rest, CString;
    ghost var was := a[..];
    assert a[s] == was[s];
    OptionEnds(text, s, cur, seen, accepts);
    a[d] := NUL;
    assert forall i :: s + 1 <= i < a.Length ==> a[..][i] == was[i];
    assert a[..d] == was[..d];
    option := ReadString(a, d);
  }

  /** Read one unit and write what it stands for. */
  method MoveUnit(a: array<char>, s: nat, d: nat, ghost text: string, ghost cur: string) returns (c: char, len: nat)
    requires At(a[..], text, s, d, cur) && s < |text| && text[s] != ','
    modifies a
    ensures len >= 1 && At(a[..], text, s + len, d + 1, cur + [c])
    ensures Rest(text, s, cur) == Rest(text, s + len, cur + [c])
  {
    hide Rest, Unit;
    UnitDecodes(text, s, cur);
    c, len := ReadUnit(a, s, a.Length - 1, text);
    ghost var was := a[..];
    a[d] := c;
    assert forall i :: s + len <= i < a.Length ==> a[..][i] == was[i];
    assert a[..d + 1] == was[..d] + [c];
  }

  /** At the end of an option it is passed on, and the rest too if it is accepted. */
  lemma {:induction false} OptionEnds(text: string, s: nat, cur: string, seen: seq<string>, accepts: Acceptance)
    requires s <= |text| && (s < |text| ==> text[s] == ',')
    ensures Processed(seen, Rest(text, s, cur), accepts) ==
            if !accepts(seen, CString(cur)) || s == |text| then seen + [CString(cur)]
            else Processed(seen + [CString(cur)], Rest(text, s + 1, []), accepts)
  {
    var following := if s == |text| then [] else Rest(text, s + 1, []);
    if s < |text| {
      assert text[s..][1..] == text[s + 1..];
    }
    assert Rest(text, s, cur) == [cur] + following;
    assert ([cur] + following)[1..] == following;
  }

  /** The string that a reader of the buffer finds: the written part, up to the first NUL in it. */
  method ReadString(a: array<char>, d: nat) returns (r: string)
    requires d < a.Length && a[d] == NUL
    ensures r == CString(a[..d])
  {
    r := [];
    var i := 0;
    while a[i] != NUL
      invariant 0 <= i <= d
      invariant CString(a[..d]) == r + CString(a[i..d])
      decreases d - i
    {
      assert a[i..d][1..] == a[i + 1..d];
      r := r + [a[i]];
      i := i + 1;
    }
  }

  // ---------------------------------------------------------------- the round trip

  /** The list built by adding the options one after the other, escaped, to a NULL list. */
  function Encode(options: seq<string>): Option<string>
    decreases |options|
  {
    if options == [] then None
    else Some(Added(Encode(options[..|options| - 1]), options[|options| - 1], true))
  }

  /** The options after leading empty ones, of which only a sole one leaves a trace. */
  function Kept(options: seq<string>): seq<string>
    decreases |options|
  {
    if |options| >= 2 && options[0] == [] then Kept(options[1..]) else options
  }

  /** Escaped options joined by commas. */
  function Joined(options: seq<string>): string
    requires options != []
    decreases |options|
  {
    if |options| == 1 then Escaped(options[0])
    else Joined(options[..|options| - 1]) + [','] + Escaped(options[|options| - 1])
  }

  lemma {:induction false} EscapedEmpty(s: string)
    ensures Escaped(s) == [] <==> s == []
  {
  }

  /** The text of the list is the join of the options that were kept. */
  lemma {:induction false} EncodeIsJoined(options: seq<string>)
    requires options != []
    ensures Kept(options) != [] && Encode(options) == Some(Joined(Kept(options)))
    ensures Joined(Kept(options)) == [] <==> Kept(options) == [[]]
    decreases |options|
  {
    hide Escaped;
    var n := |options|;
    if n == 1 {
      EscapedEmpty(options[0]);
      assert options[..0] == [];
    } else {
      var init, last := options[..n - 1], options[n - 1];
      EncodeIsJoined(init);
      EscapedEmpty(last);
      assert options == init + [last];
      KeptAppend(init, last);
      hide Kept;
      if Kept(init) == [[]] {
        assert Joined([last]) == Escaped(last);
      } else {
        JoinedAppend(Kept(init), last);
      }
    }
  }

  lemma {:induction false} JoinedAppend(init: seq<string>, last: string)
    requires init != []
    ensures Joined(init + [last]) == Joined(init) + [','] + Escaped(last)
  {
    assert (init + [last])[..|init|] == init;
  }

  lemma {:induction false} KeptAppend(init: seq<string>, last: string)
    requires init != []
    ensures Kept(init + [last]) == if Kept(init) == [[]] then [last] else Kept(init) + [last]
    decreases |init|
  {
    var options := init + [last];
    if init[0] == [] {
      assert options[1..] == init[1..] + [last];
      if |init| >= 2 {
        KeptAppend(init[1..], last);
      } else {
        assert init[1..] == [] && options[1..] == [last];
        assert init == [[]];
      }
    }
  }

  lemma {:induction false} UnescapesChar(c: char, rest: string, cur: string)
    ensures DecodeFrom(EscapedChar(c) + rest, cur) == DecodeFrom(rest, cur + [c])
  {
    var text := EscapedChar(c) + rest;
    assert text[|EscapedChar(c)|..] == rest;
    if Special(c) {
      assert text[1..][0] == c;
      assert !Octal3(text[1..]);
    }
  }

  /** Decoding an escaped option gathers the option itself. */
  lemma {:induction false} UnescapesTo(s: string, rest: string, cur: string)
    ensures DecodeFrom(Escaped(s) + rest, cur) == DecodeFrom(rest, cur + s)
    decreases |s|
  {
    hide DecodeFrom, EscapedChar;
    if s == [] {
      assert Escaped(s) + rest == rest && cur + s == cur;
    } else {
      var tail := Escaped(s[1..]) + rest;
      assert Escaped(s) + rest == EscapedChar(s[0]) + tail;
      UnescapesChar(s[0], tail, cur);
      UnescapesTo(s[1..], rest, cur + [s[0]]);
      assert cur + [s[0]] + s[1..] == cur + s;
    }
  }

  /** The options after one that ends where `rest` begins. */
  function After(rest: string): seq<string> {
    if rest == [] then [] else DecodeFrom(rest[1..], [])
  }

  lemma {:induction false} LastDecodes(option: string, rest: string)
    requires rest == [] || rest[0] == ','
    ensures DecodeFrom(Escaped(option) + rest, []) == [option] + After(rest)
  {
    UnescapesTo(option, rest, []);
    assert [] + option == option;
  }

  /** Decoding a join gives the options joined. */
  lemma {:induction false} DecodeJoined(options: seq<string>, rest: string)
    requires options != [] && (rest == [] || rest[0] == ',')
    ensures DecodeFrom(Joined(options) + rest, []) == options + After(rest)
    decreases |options|
  {
    hide DecodeFrom, Escaped;
    var n := |options|;
    var last := options[n - 1];
    LastDecodes(last, rest);
    if n == 1 {
      assert options == [last];
    } else {
      var init := options[..n - 1];
      var more := [','] + (Escaped(last) + rest);
      assert Joined(options) + rest == Joined(init) + more;
      DecodeJoined(init, more);
      assert more[1..] == Escaped(last) + rest;
      hide After;
      assert options == init + [last];
      assert init + ([last] + After(rest)) == options + After(rest);
    }
  }

  /** What comes back from encoding and decoding a list of options. */
  lemma {:induction false} DecodeEncode(options: seq<string>)
    requires options != []
    ensures Encode(options).Some? && Decode(Encode(options).value) == Kept(options)
  {
    EncodeIsJoined(options);
    DecodeJoined(Kept(options), []);
    assert Joined(Kept(options)) + [] == Joined(Kept(options));
  }

  /** The round trip is the identity exactly when the first option is not empty or is the only one: an empty
      first option followed by others is lost, because a comma is written only after a non-empty list. */
  lemma {:induction false} RoundTrip(options: seq<string>)
    requires options != []
    ensures Encode(options).Some?
    ensures Decode(Encode(options).value) == options <==> |options| == 1 || options[0] != []
  {
    DecodeEncode(options);
    KeptShrinks(options);
  }

  lemma {:induction false} KeptShrinks(options: seq<string>)
    ensures |Kept(options)| <= |options|
    ensures |options| >= 2 && options[0] == [] ==> |Kept(options)| < |options|
    decreases |options|
  {
    if |options| >= 2 && options[0] == [] { KeptShrinks(options[1..]); }
  }

  // ---------------------------------------------------------------- adding without escapes

  /** The list built by `fuse_opt_add_opt`, which escapes nothing. */
  function Plain(options: seq<string>): Option<string>
    decreases |options|
  {
    if options == [] then None
    else Some(Added(Plain(options[..|options| - 1]), options[|options| - 1], false))
  }

  predicate NothingSpecial(s: string) {
    forall i :: 0 <= i < |s| ==> !Special(s[i])
  }

  lemma {:induction false} EscapedPlain(s: string)
    requires NothingSpecial(s)
    ensures Escaped(s) == s
    decreases |s|
  {
    if s != [] { EscapedPlain(s[1..]); }
  }

  /** Options without commas and backslashes come back as they were added, escaped or not. */
  lemma {:induction false} PlainRoundTrip(options: seq<string>)
    requires options != [] && (|options| == 1 || options[0] != [])
    requires forall i :: 0 <= i < |options| ==> NothingSpecial(options[i])
    ensures Plain(options) == Encode(options) && Plain(options).Some? && Decode(Plain(options).value) == options
  {
    PlainIsEncoded(options);
    RoundTrip(options);
  }

  lemma {:induction false} PlainIsEncoded(options: seq<string>)
    requires forall i :: 0 <= i < |options| ==> NothingSpecial(options[i])
    ensures Plain(options) == Encode(options)
    decreases |options|
  {
    if options != [] {
      PlainIsEncoded(options[..|options| - 1]);
      EscapedPlain(options[|options| - 1]);
    }
  }

  /** An option without backslashes, added as it is, is read as the pieces between its commas. */
  function Pieces(s: string, cur: string): seq<string>
    decreases |s|
  {
    if s == [] then [cur]
    else if s[0] == ',' then [cur] + Pieces(s[1..], [])
    else Pieces(s[1..], cur + [s[0]])
  }

  lemma {:induction false} CommasSplit(s: string, cur: string)
    requires forall i :: 0 <= i < |s| ==> s[i] != '\\'
    ensures DecodeFrom(s, cur) == Pieces(s, cur)
    decreases |s|
  {
    if s != [] {
      if s[0] == ',' { CommasSplit(s[1..], []); } else { CommasSplit(s[1..], cur + [s[0]]); }
    }
  }

  /** A backslash takes away the meaning of whatever follows it, unless that is the beginning of an octal escape; at the
      very end it stands for itself. */
  lemma {:induction false} BackslashQuotes(c: char, rest: string, cur: string)
    ensures !Octal3([c] + rest) ==> DecodeFrom(['\\', c] + rest, cur) == DecodeFrom(rest, cur + [c])
    ensures DecodeFrom(['\\'], cur) == [cur + ['\\']]
  {
    var text := ['\\', c] + rest;
    assert text[1..] == [c] + rest && text[2..] == rest;
    assert ['\\'][1..] == [];
  }

  // ---------------------------------------------------------------- octal escapes

  function Digit(k: nat): char
    requires k < 8
  {
    (k + '0' as int) as char
  }

  /** A byte as a backslash and three octal digits. */
  function OctalEscape(c: char): string
    requires c as int < 256
  {
    var v := c as int;
    ['\\', Digit(v / 64), Digit(v / 8 % 8), Digit(v % 8)]
  }

  function OctalText(s: string): string
    requires forall i :: 0 <= i < |s| ==> s[i] as int < 256
  {
    if s == [] then [] else OctalEscape(s[0]) + OctalText(s[1..])
  }

  /** Every byte has an octal escape that the decoder turns back into it. */
  lemma {:induction false} OctalDecodes(c: char, rest: string, cur: string)
    requires c as int < 256
    ensures DecodeFrom(OctalEscape(c) + rest, cur) == DecodeFrom(rest, cur + [c])
  {
    var text := OctalEscape(c) + rest;
    var v := c as int;
    assert text[1..][0] == Digit(v / 64) && text[1..][1] == Digit(v / 8 % 8) && text[1..][2] == Digit(v % 8);
    assert v / 64 * 64 + v / 8 % 8 * 8 + v % 8 == v;
    assert OctalValue(text[1..]) == c;
    assert text[4..] == rest;
  }

  /** So every option of bytes, commas and backslashes included, can be written in octal and is read back. */
  lemma {:induction false} OctalRoundTrip(s: string, cur: string)
    requires forall i :: 0 <= i < |s| ==> s[i] as int < 256
    ensures DecodeFrom(OctalText(s), cur) == [cur + s]
    decreases |s|
  {
    if s == [] {
      assert cur + s == cur;
    } else {
      OctalDecodes(s[0], OctalText(s[1..]), cur);
      OctalRoundTrip(s[1..], cur + [s[0]]);
      assert cur + [s[0]] + s[1..] == cur + s;
    }
  }

  /** An option that is lost: two options, the first one empty. */
  lemma {:induction false} EmptyFirstOptionIsLost()
    ensures Encode(["", "a"]).Some? && Decode(Encode(["", "a"]).value) == ["a"]
  {
    var options: seq<string> := ["", "a"];
    DecodeEncode(options);
    assert options[1..] == ["a"] && Kept(options[1..]) == ["a"];
  }

  /** End to end: what `DecodeInPlace` passes on, when every option is accepted, is what was added. */
  lemma {:induction false} OptionsSurvive(options: seq<string>, accepts: Acceptance)
    requires options != [] && (|options| == 1 || options[0] != [])
    requires forall i, j :: 0 <= i < |options| && 0 <= j < |options[i]| ==> options[i][j] != NUL
    requires AllAccepted(options, accepts)
    ensures Encode(options).Some? && NUL !in Encode(options).value
    ensures Processed([], Decode(Encode(options).value), accepts) == options
  {
    NoNul(options);
    RoundTrip(options);
    assert [] + options == options;
    ProcessedAll([], options, accepts);
  }

  lemma {:induction false} ProcessedAll(done: seq<string>, options: seq<string>, accepts: Acceptance)
    requires AllAccepted(done + options, accepts)
    requires forall i :: 0 <= i < |options| ==> CString(options[i]) == options[i]
    ensures Processed(done, options, accepts) == done + options
    decreases |options|
  {
    if options == [] {
      assert done + options == done;
    } else {
      var all := done + options;
      assert all[|done|] == options[0] && all[..|done|] == done;
      assert all == done + [options[0]] + options[1..];
      ProcessedAll(done + [options[0]], options[1..], accepts);
    }
  }

  /** An encoded list of NUL-free options is NUL-free, so the decoder's buffer holds it as one C string, and
      the decoded options are passed on whole. */
  lemma {:induction false} NoNul(options: seq<string>)
    requires options != [] && forall i, j :: 0 <= i < |options| && 0 <= j < |options[i]| ==> options[i][j] != NUL
    ensures Encode(options).Some? && NUL !in Encode(options).value
    ensures forall i :: 0 <= i < |options| ==> CString(options[i]) == options[i]
    decreases |options|
  {
    var n := |options|;
    EscapedNoNul(options[n - 1]);
    if n > 1 {
      NoNul(options[..n - 1]);
    } else {
      assert options[..0] == [];
    }
    forall i | 0 <= i < n ensures CString(options[i]) == options[i] {
      CStringWhole(options[i]);
    }
  }

  lemma {:induction false} EscapedNoNul(s: string)
    requires forall j :: 0 <= j < |s| ==> s[j] != NUL
    ensures NUL !in Escaped(s)
    decreases |s|
  {
    if s != [] { EscapedNoNul(s[1..]); }
  }

  lemma {:induction false} CStringWhole(s: string)
    requires forall j :: 0 <= j < |s| ==> s[j] != NUL
    ensures CString(s) == s
    decreases |s|
  {
    if s != [] { CStringWhole(s[1..]); }
  }
}
