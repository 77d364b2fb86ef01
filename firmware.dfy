/**
 * The sketch's own logic in src/main.cpp: the elapsed-time text served as "time", the serial
 * console's command recognition and line editor, and the DHT sensor update rule.
 */
module Firmware {
  import opened Common
  import opened Utils

  const TWO_POW_64: nat := 0x1_0000_0000_0000_0000
  const DAY_MS: nat := 86400000

  /** `now - last_measurement` on uint64_t: wraps around when `now` is the smaller. */
  function Elapsed(now: nat, lastMeasurement: nat): (d: nat)
    requires now < TWO_POW_64 && lastMeasurement < TWO_POW_64
    ensures d < TWO_POW_64
    ensures lastMeasurement <= now ==> d == now - lastMeasurement
    ensures now < lastMeasurement ==> d + lastMeasurement == now + TWO_POW_64
  {
    (now - lastMeasurement) % TWO_POW_64
  }

  /**
   * The four fields of a time value `d` in milliseconds: hours within the day, minutes, seconds
   * and milliseconds. Division floors and the remainder is never negative.
   */
  function Hours(d: int): nat { (d / 3600000) % 24 }
  function Minutes(d: int): nat { (d / 60000) % 60 }
  function Seconds(d: int): nat { (d / 1000) % 60 }
  function Millis(d: int): nat { d % 1000 }

  /**
   * The text getTimeSinceMeasurement streams: each field through setfill('0') and setw(2),
   * setw(2), setw(2), setw(3), separated by ':', ':' and '.'.
   */
  function ElapsedText(d: nat): (r: string)
    ensures |r| == 12 && r[2] == ':' && r[5] == ':' && r[8] == '.'
    ensures r[..2] == ZeroPadded(Hours(d), 2) && r[3..5] == ZeroPadded(Minutes(d), 2)
    ensures r[6..8] == ZeroPadded(Seconds(d), 2) && r[9..] == ZeroPadded(Millis(d), 3)
  {
    ClockTextShape(Hours(d), Minutes(d), Seconds(d), Millis(d));
    ClockText(Hours(d), Minutes(d), Seconds(d), Millis(d))
  }

  /** The fields add up to the time of day of `d`: the hours wrap at 24. */
  lemma FieldsAreTimeOfDay(d: int)
    ensures Hours(d) * 3600000 + Minutes(d) * 60000 + Seconds(d) * 1000 + Millis(d) == d % DAY_MS
  {
    DivDiv(d, 1000, 60);
    DivDiv(d, 60000, 60);
    DivDiv(d, 3600000, 24);
    assert d / 1000 / 60 == d / 60000;
    assert d / 60000 / 60 == d / 3600000;
  }

  // ---------------------------------------------------------------- serial console

  /** handle_serial_input's recognition: the commands it answers with `true`. */
  function IsCommand(input: string): (r: bool)
    ensures r ==> 2 <= |input| <= 11
  {
    input == "temperature" || input == "temp" || input == "humidity" || input == "ip"
    || input == "scan" || input == "help"
  }

  const BACKSPACE: char := 8 as char

  /** iscntrl in the "C" locale: the codes 0 to 31 and 127. */
  predicate IsCntrl(c: char) {
    c as int < 32 || c as int == 127
  }

  predicate NoCntrl(s: string) {
    forall k :: 0 <= k < |s| ==> !IsCntrl(s[k])
  }

  lemma CommandsHaveNoCntrl(input: string)
    requires IsCommand(input)
    ensures NoCntrl(input)
  {
  }

  /** What the console does with a command: runs it, or reports it as unknown. */
  datatype Event = Ran(command: string) | Unknown(command: string)

  /** The console's state: the pending `command` and what has been run or reported. */
  datatype Console = Console(command: string, events: seq<Event>)

  /**
   * One character of the input loop: '\b' drops the last character if there is one, '\n' runs
   * or reports a non-empty command and then clears it, any other control character is ignored
   * and every other character is appended.
   */
  function Edit(s: Console, c: char): (r: Console)
    ensures NoCntrl(s.command) ==> NoCntrl(r.command)
  {
    if c == BACKSPACE then
      if s.command == [] then s else Console(s.command[..|s.command| - 1], s.events)
    else if c == '\n' then
      if s.command == [] then Console([], s.events)
      else if IsCommand(s.command) then Console([], s.events + [Ran(s.command)])
      else Console([], s.events + [Unknown(s.command)])
    else if !IsCntrl(c) then Console(s.command + [c], s.events)
    else s
  }

  /** The whole chunk, one character after the other. */
  function EditAll(s: Console, input: string): Console
    decreases |input|
  {
    if input == [] then s else EditAll(Edit(s, input[0]), input[1..])
  }

  /** After the chunk a recognised command runs at once and is cleared, newline or not. */
  function Settle(s: Console): (r: Console)
    ensures !IsCommand(r.command)
    ensures IsCommand(s.command) ==> r == Console([], s.events + [Ran(s.command)])
    ensures !IsCommand(s.command) ==> r == s
  {
    if IsCommand(s.command) then Console([], s.events + [Ran(s.command)]) else s
  }

  lemma {:induction false} EditAllAppend(s: Console, a: string, b: string)
    ensures EditAll(s, a + b) == EditAll(EditAll(s, a), b)
    decreases |a|
  {
    if a == [] {
      assert a + b == b;
    } else {
      assert (a + b)[0] == a[0] && (a + b)[1..] == a[1..] + b;
      EditAllAppend(Edit(s, a[0]), a[1..], b);
    }
  }

  /** Printable characters are appended one by one and nothing runs meanwhile. */
  lemma {:induction false} TypingAppends(s: Console, input: string)
    requires NoCntrl(input)
    ensures EditAll(s, input) == Console(s.command + input, s.events)
    decreases |input|
  {
    if input != [] {
      assert (s.command + [input[0]]) + input[1..] == s.command + input;
      TypingAppends(Console(s.command + [input[0]], s.events), input[1..]);
    }
  }

  /** A command typed in one chunk runs once and leaves the line empty, even without a newline. */
  lemma CommandFiresWithoutNewline(events: seq<Event>, command: string)
    requires IsCommand(command)
    ensures Settle(EditAll(Console([], events), command)) == Console([], events + [Ran(command)])
  {
    CommandsHaveNoCntrl(command);
    TypingAppends(Console([], events), command);
    assert [] + command == command;
  }

  /**
   * A prefix of a longer command that is a command itself fires as soon as a chunk ends there:
   * "temp" arriving before "erature" runs "temp" and leaves "erature" pending.
   */
  lemma SplitChunkRunsPrefix(events: seq<Event>)
    ensures var first := Settle(EditAll(Console([], events), "temp"));
      first == Console([], events + [Ran("temp")])
      && Settle(EditAll(first, "erature")) == Console("erature", events + [Ran("temp")])
  {
    var first := Console([], events + [Ran("temp")]);
    assert Settle(EditAll(Console([], events), "temp")) == first by {
      CommandFiresWithoutNewline(events, "temp");
    }
    var rest := "erature";
    assert EditAll(first, rest) == Console(rest, first.events) by {
      assert NoCntrl(rest);
      TypingAppends(first, rest);
      assert [] + rest == rest;
    }
    assert !IsCommand(rest) by {
      assert |rest| == 7;
    }
  }

  /** A line ended by '\n' is run or reported, whatever it is, and the line starts afresh. */
  lemma LineEndsCommand(events: seq<Event>, line: string)
    requires NoCntrl(line) && line != []
    ensures EditAll(Console([], events), line + "\n")
            == Console([], events + [if IsCommand(line) then Ran(line) else Unknown(line)])
  {
    EditAllAppend(Console([], events), line, "\n");
    TypingAppends(Console([], events), line);
    assert [] + line == line;
    assert "\n"[1..] == [];
  }

  /** The pending `command` of the loop in src/main.cpp. */
  class SerialConsole {
    var command: string

    ghost predicate Valid()
      reads this
    {
      NoCntrl(command) && !IsCommand(command)
    }

    constructor ()
      ensures Valid() && command == []
    {
      command := [];
    }

    /**
     * One chunk read from Serial: every character through the editor, then a recognised command
     * runs and is cleared. Returns what ran and what was reported, in order.
     */
    method Feed(input: string) returns (events: seq<Event>)
      requires Valid()
      modifies this
      ensures Valid()
      ensures Console(command, events) == Settle(EditAll(Console(old(command), []), input))
    {
      events := [];
      var i := 0;
      while i < |input|
        invariant i <= |input| && NoCntrl(command)
        invariant EditAll(Console(command, events), input[i..]) == EditAll(Console(old(command), []), input)
      {
        var c := input[i];
        assert input[i..][0] == c && input[i..][1..] == input[i + 1..];
        if c == BACKSPACE {
          if command != [] {
            command := command[..|command| - 1];
          }
        } else if c == '\n' {
          if command != [] {
            if IsCommand(command) {
              events := events + [Ran(command)];
            } else {
              events := events + [Unknown(command)];
            }
          }
          command := [];
        } else if !IsCntrl(c) {
          command := command + [c];
        }
        i := i + 1;
      }
      if IsCommand(command) {
        events := events + [Ran(command)];
        command := [];
      }
    }
  }

  // ---------------------------------------------------------------- the DHT update rule

  /** A float reading, NaN when the sensor failed. */
  datatype Reading = NaN | Value(x: real)

  /** The globals that measure() updates and getTimeSinceMeasurement reads. */
  class Station {
    var temperature: Reading
    var humidity: Reading
    var lastMeasurement: nat

    ghost predicate Valid()
      reads this
    {
      lastMeasurement < TWO_POW_64
    }

    /** Both readings start as NaN and the last measurement at time 0. */
    constructor ()
      ensures Valid() && temperature == NaN && humidity == NaN && lastMeasurement == 0
    {
      temperature := NaN;
      humidity := NaN;
      lastMeasurement := 0;
    }

    /**
     * measure() with a DHT sensor: a NaN reading never overwrites its stored value, and the
     * measurement time moves to `now` only when both readings are numbers.
     */
    method Measure(temp: Reading, humid: Reading, now: nat)
      requires Valid() && now < TWO_POW_64
      modifies this
      ensures Valid()
      ensures temperature == if temp.NaN? then old(temperature) else temp
      ensures humidity == if humid.NaN? then old(humidity) else humid
      ensures lastMeasurement == if temp.Value? && humid.Value? then now else old(lastMeasurement)
    {
      if !temp.NaN? {
        temperature := temp;
      }
      if !humid.NaN? {
        humidity := humid;
      }
      if !temp.NaN? && !humid.NaN? {
        lastMeasurement := now;
      }
    }

    /** getTimeSinceMeasurement at the clock reading `now`. */
    function TimeSinceMeasurement(now: nat): (r: string)
      requires Valid() && now < TWO_POW_64
      reads this
      ensures |r| == 12 && r[2] == ':' && r[5] == ':' && r[8] == '.'
    {
      ElapsedText(Elapsed(now, lastMeasurement))
    }
  }
}
