/** `aoc::operator<<` for `std::optional<T>`: the value, or "N/A" when empty. */
module Serialize {
  import opened Wrappers
  import Text

  /** An output stream: whether it is still good, and what has been written. */
  datatype OStream = OStream(good: bool, text: string)

  /** Writes `r` through `show` (the `operator<<` of `T`), or "N/A" for an
      empty optional; a stream whose sentry fails is returned untouched. */
  function WriteOptional<T>(os: OStream, r: Option<T>, show: T -> string): (res: OStream)
    ensures res.good == os.good
    ensures !os.good ==> res == os
    ensures os.good ==> |res.text| >= |os.text| && res.text[..|os.text|] == os.text
    ensures os.good && r.None? ==> res.text[|os.text|..] == "N/A"
    ensures os.good && r.Some? ==> res.text[|os.text|..] == show(r.value)
  {
    if !os.good then os
    else
      var piece := match r case Some(v) => show(v) case None => "N/A";
      OStream(true, os.text + piece)
  }

  /** For an integer optional, what was written can be read back: an engaged
      optional reads as its value. */
  lemma WriteSomeReadBack(os: OStream, v: int)
    requires os.good
    ensures Text.ReadSigned(WriteOptional(os, Some(v), Text.IntToString).text[|os.text|..]) == Text.Got(v, "")
  {
    Text.ReadSignedIntToString(v, "");
    assert Text.IntToString(v) + "" == Text.IntToString(v);
  }

  /** "N/A" is not a number: reading an empty optional back fails without
      reaching the end of the stream. */
  lemma WriteNoneReadBack<T>(os: OStream, show: T -> string)
    requires os.good
    ensures Text.ReadSigned(WriteOptional(os, None, show).text[|os.text|..]) == Text.Stuck(false)
  {
    var w := WriteOptional(os, None, show).text[|os.text|..];
    assert w == "N/A";
    assert Text.SkipWs(w) == w;
  }
}
