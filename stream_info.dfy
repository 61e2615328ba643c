/**
 * The audio URL `get_stream_info` hands to the decoder: the URL yt-dlp
 * reports for the chosen format, or, when that is missing or empty, the URL
 * of the last listed format that carries audio.
 */
module StreamInfo {
  import opened Options

  /**
   * One entry of `info['formats']`: its `acodec` and its `url`, each `None`
   * when the key is absent.
   */
  datatype Format = Format(acodec: Option<string>, url: Option<string>)

  /** What `extract_info` returns, as far as the URL choice reads it; a missing `formats` key is the empty list. */
  datatype Info = Info(url: Option<string>, formats: seq<Format>)

  /** The chosen URL, or the `KeyError` raised when the chosen format has no `url` key. */
  datatype Choice = Chosen(url: Option<string>) | MissingUrlKey

  /** Python truthiness of an optional string: present and non-empty. */
  predicate Truthy(s: Option<string>) {
    s.Some? && s.value != ""
  }

  /** `f.get('acodec') != 'none'`: a format with no `acodec` key counts as audio. */
  predicate HasAudio(f: Format) {
    f.acodec != Some("none")
  }

  /**
   * The index of the last format with audio: the first one met when walking
   * `reversed(formats)`.
   */
  function LastAudio(fs: seq<Format>): (r: Option<nat>)
    ensures r.Some? ==> r.value < |fs| && HasAudio(fs[r.value])
    ensures r.Some? ==> forall k :: r.value < k < |fs| ==> !HasAudio(fs[k])
    ensures r.None? ==> forall k :: 0 <= k < |fs| ==> !HasAudio(fs[k])
  {
    if fs == [] then None
    else if HasAudio(fs[|fs| - 1]) then Some(|fs| - 1)
    else LastAudio(fs[..|fs| - 1])
  }

  /** Lines 68-74 of `get_stream_info`. */
  function AudioUrl(info: Info): (c: Choice)
    ensures c.Chosen? ==> c.url == info.url || exists k :: 0 <= k < |info.formats| && c.url == info.formats[k].url
  {
    if Truthy(info.url) then Chosen(info.url)
    else
      match LastAudio(info.formats)
      case None => Chosen(info.url)
      case Some(k) =>
        if info.formats[k].url.Some? then Chosen(info.formats[k].url) else MissingUrlKey
  }

  /** A non-empty top-level URL is used as it is, whatever the formats say. */
  lemma TopLevelUrlWins(info: Info)
    requires Truthy(info.url)
    ensures AudioUrl(info) == Chosen(info.url)
  {
  }

  /**
   * Without a usable top-level URL, the format consulted is the last one with
   * audio, wherever it sits in the list: its URL is chosen, or the lookup
   * fails when it has none.
   */
  lemma FallbackPicksLastAudio(info: Info, k: nat)
    requires !Truthy(info.url)
    requires k < |info.formats| && HasAudio(info.formats[k])
    requires forall j :: k < j < |info.formats| ==> !HasAudio(info.formats[j])
    ensures info.formats[k].url.Some? ==> AudioUrl(info) == Chosen(info.formats[k].url)
    ensures info.formats[k].url.None? <==> AudioUrl(info) == MissingUrlKey
  {
    var r := LastAudio(info.formats);
    assert r.Some?;
    assert !(r.value < k) && !(k < r.value);
  }

  /** When no format has audio, the (missing or empty) top-level URL is returned unchanged. */
  lemma NoAudioKeepsTopLevel(info: Info)
    requires forall j :: 0 <= j < |info.formats| ==> !HasAudio(info.formats[j])
    ensures AudioUrl(info) == Chosen(info.url)
  {
  }

  /** The lookup fails only on the fallback path, and only on a format with audio but no `url` key. */
  lemma MissingUrlKeyOnlyOnFallback(info: Info)
    requires AudioUrl(info) == MissingUrlKey
    ensures !Truthy(info.url)
    ensures exists k :: 0 <= k < |info.formats| && HasAudio(info.formats[k]) && info.formats[k].url.None?
  {
    var k := LastAudio(info.formats).value;
    assert HasAudio(info.formats[k]) && info.formats[k].url.None?;
  }
}
