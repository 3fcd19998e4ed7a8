/**
 * The two pure helpers of the chat page (src/pages/ChatApp.jsx): `formatTime`,
 * which labels audio citations, and `getFileIcon`, which picks the icon of an
 * entry in the uploaded-files list.
 */
module ChatHelpers {
  import opened Text

  /** JavaScript `x % m` on numbers: the remainder keeps the sign of `x`. */
  function JsRemainder(x: real, m: real): real
    requires m > 0.0
  {
    x - m * (Trunc(x / m) as real)
  }

  /**
   * `formatTime(totalSeconds)`: `Math.floor(totalSeconds / 60)` and
   * `Math.floor(totalSeconds % 60)`, each written with `String` and
   * `padStart(2, "0")`, joined by ':'.
   */
  function FormatTime(totalSeconds: real): string {
    var minutes := (totalSeconds / 60.0).Floor;
    var seconds := JsRemainder(totalSeconds, 60.0).Floor;
    Clock(minutes, seconds)
  }

  /** For a non-negative time, the two fields are the whole minutes and the remaining whole seconds. */
  lemma MinutesAndSeconds(x: real)
    requires x >= 0.0
    ensures (x / 60.0).Floor == x.Floor / 60
    ensures JsRemainder(x, 60.0).Floor == x.Floor % 60
  {
    var n := x.Floor;
    var q, r := n / 60, n % 60;
    assert n == 60 * q + r && 0 <= r < 60;
    assert (q as real) <= x / 60.0 < (q as real) + 1.0 by {
      assert (n as real) <= x < (n as real) + 1.0;
      assert (n as real) == 60.0 * (q as real) + (r as real);
    }
    assert Trunc(x / 60.0) == q;
    var rem := JsRemainder(x, 60.0);
    assert rem == x - 60.0 * (q as real);
    assert (r as real) <= rem < (r as real) + 1.0 by {
      assert (n as real) <= x < (n as real) + 1.0;
      assert (n as real) == 60.0 * (q as real) + (r as real);
    }
  }

  /**
   * Reading a label back: for a non-negative time the label is "MM:SS" where
   * MM is the whole minutes and SS the remaining whole seconds (so MM*60 + SS
   * is the whole number of seconds and SS is below 60).
   */
  lemma {:induction false} FormatTimeReadsBack(x: real)
    requires x >= 0.0
    ensures ReadsBackAs(FormatTime(x), x.Floor / 60, x.Floor % 60)
  {
    MinutesAndSeconds(x);
    ClockReadsBack(x.Floor / 60, x.Floor % 60);
  }

  /** The icon and its colour class. */
  datatype FileIcon = FileIcon(icon: string, color: string)

  const AudioIconExtensions := [".mp3", ".wav", ".m4a"]
  const ImageIconExtensions := [".jpg", ".jpeg", ".png", ".gif", ".bmp", ".webp"]

  /** `getFileIcon(filename)`: the first matching extension test, on the lower-cased name, wins. */
  function GetFileIcon(filename: string): FileIcon {
    var lower := ToLowerAscii(filename);
    if EndsWith(lower, ".pdf") then FileIcon("picture_as_pdf", "text-red-400")
    else if EndsWith(lower, ".docx") then FileIcon("description", "text-blue-400")
    else if EndsWithAny(lower, AudioIconExtensions) then FileIcon("audiotrack", "text-orange-400")
    else if EndsWithAny(lower, ImageIconExtensions) then FileIcon("image", "text-green-400")
    else FileIcon("article", "text-gray-400")
  }

  /** The icon ignores letter case: a name and its lower-cased form get the same icon. */
  lemma IconIgnoresCase(filename: string)
    ensures GetFileIcon(ToLowerAscii(filename)) == GetFileIcon(filename)
  {
    ToLowerIdempotent(filename);
  }
}
