/**
 * Where the page and the server describe the same thing: the time labels of
 * audio citations, and which files count as audio.
 */
module Consistency {
  import opened Common
  import opened Text
  import Transcript
  import ChatHelpers
  import RagSession

  /**
   * For a non-negative time the server's `format_timestamp` and the page's
   * `formatTime` write the same label.
   */
  lemma TimeLabelsAgree(x: real)
    requires x >= 0.0
    ensures Transcript.FormatTimestamp(Some(x)) == ChatHelpers.FormatTime(x)
  {
    ChatHelpers.MinutesAndSeconds(x);
  }

  /** Whatever the stem, the lower-cased name `stem + ".ogg"` ends in ".ogg". */
  lemma LowerEndsInOgg(stem: string)
    ensures var lower := ToLowerAscii(stem + ".ogg"); |lower| >= 4 && lower[|lower| - 4..] == ".ogg"
  {
    var name := stem + ".ogg";
    var lower := ToLowerAscii(name);
    var n := |name|;
    assert name[n - 4] == '.' && name[n - 3] == 'o' && name[n - 2] == 'g' && name[n - 1] == 'g';
    assert lower[n - 4] == '.' && lower[n - 3] == 'o' && lower[n - 2] == 'g' && lower[n - 1] == 'g';
    assert lower[n - 4..] == [lower[n - 4], lower[n - 3], lower[n - 2], lower[n - 1]];
  }

  /** A name ending in "gg" ends with none of `extensions` when none of them does. */
  lemma NoneEndsInGg(name: string, extensions: seq<string>)
    requires |name| >= 2 && name[|name| - 2..] == "gg"
    requires forall k | 0 <= k < |extensions| :: |extensions[k]| >= 2 && extensions[k][|extensions[k]| - 2..] != "gg"
    ensures !EndsWithAny(name, extensions)
  {
    forall k | 0 <= k < |extensions| ensures !EndsWith(name, extensions[k]) {
      var e := extensions[k];
      if |e| <= |name| {
        assert name[|name| - |e|..][|e| - 2..] == name[|name| - 2..];
      }
    }
  }

  /** The server transcribes `.ogg` uploads as audio. */
  lemma OggIsAudio(stem: string)
    ensures RagSession.UploadKind(stem + ".ogg") == Some(RagSession.Audio)
  {
    LowerEndsInOgg(stem);
    var lower := ToLowerAscii(stem + ".ogg");
    assert EndsWith(lower, RagSession.AudioExtensions[3]);
    assert !EndsWith(lower, ".pdf") by { assert lower[|lower| - 1] == 'g'; }
    assert !EndsWith(lower, ".docx") by { assert lower[|lower| - 1] == 'g'; }
  }

  /** The page's icon list does not know the `.ogg` extension and shows such uploads as plain articles. */
  lemma OggHasArticleIcon(stem: string)
    ensures ChatHelpers.GetFileIcon(stem + ".ogg").icon == "article"
  {
    LowerEndsInOgg(stem);
    var lower := ToLowerAscii(stem + ".ogg");
    assert lower[|lower| - 2..] == "gg";
    assert !EndsWith(lower, ".pdf") by { assert lower[|lower| - 1] == 'g'; }
    assert !EndsWith(lower, ".docx") by { assert lower[|lower| - 1] == 'g'; }
    NoneEndsInGg(lower, ChatHelpers.AudioIconExtensions);
    NoneEndsInGg(lower, ChatHelpers.ImageIconExtensions);
  }
}
