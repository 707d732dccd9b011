/**
 * The video admin form's `clean` (daiseihai/archive/forms.py): when no chat
 * start is given, it is derived from two helper inputs, a chat timestamp
 * (milliseconds on the chat's clock) and the video position at which that
 * chat line is heard.
 */
module Forms {

  /** A cleaned form value: `None`, an integer, a duration (in microseconds), or other text. */
  datatype Value = Null | Int(n: int) | Duration(micros: int) | Text(s: string)

  const ChatStart := "chat_start"
  const ChatTimestamp := "sync_help_chat_timestamp"
  const VideoTimestamp := "sync_help_video_timestamp"

  /** `dict.get(key)`: absent keys read as `None`. */
  function Get(data: map<string, Value>, key: string): (v: Value)
    ensures key !in data ==> v == Null
    ensures key in data ==> v == data[key]
  {
    if key in data then data[key] else Null
  }

  /** Python truthiness: `None`, `0`, a zero duration and `''` are false. */
  predicate Truthy(v: Value) {
    match v
    case Null => false
    case Int(n) => n != 0
    case Duration(micros) => micros != 0
    case Text(s) => s != ""
  }

  /**
   * The helper fields hold what their form fields produce: an
   * `IntegerField` gives an integer or `None`, a `DurationField` a
   * duration or `None`.
   */
  predicate WellTyped(data: map<string, Value>) {
    (Get(data, ChatTimestamp).Null? || Get(data, ChatTimestamp).Int?)
    && (Get(data, VideoTimestamp).Null? || Get(data, VideoTimestamp).Duration?)
  }

  /** `int(td.total_seconds() * 1000)`: milliseconds, truncated toward zero. */
  function MillisOf(micros: int): int {
    if micros >= 0 then micros / 1000 else -((-micros) / 1000)
  }

  /** Truncation toward zero: the magnitude is rounded down, the sign kept. */
  lemma MillisTruncates(micros: int)
    ensures micros >= 0 ==> 0 <= MillisOf(micros) && MillisOf(micros) * 1000 <= micros < MillisOf(micros) * 1000 + 1000
    ensures micros < 0 ==> MillisOf(micros) <= 0 && MillisOf(micros) * 1000 - 1000 < micros <= MillisOf(micros) * 1000
    ensures MillisOf(-micros) == -MillisOf(micros)
  {
  }

  /** A negative duration rounds toward zero, not down. */
  lemma MillisOfNegativeExample()
    ensures MillisOf(-1_500) == -1 && MillisOf(1_500) == 1 && MillisOf(999) == 0
  {
  }

  /** `chat_start` counts as missing when absent or `None`. */
  predicate ChatStartGiven(data: map<string, Value>) {
    Get(data, ChatStart) != Null
  }

  /** Both helpers are present and truthy. */
  predicate HelpersGiven(data: map<string, Value>) {
    Truthy(Get(data, ChatTimestamp)) && Truthy(Get(data, VideoTimestamp))
  }

  /**
   * The cleaned data after `clean`: unchanged, except that a missing
   * `chat_start` is set from truthy helpers to the chat timestamp minus the
   * video position in milliseconds.
   */
  function DeriveChatStart(data: map<string, Value>): (r: map<string, Value>)
    requires WellTyped(data)
    ensures forall k :: k != ChatStart ==> (k in r <==> k in data) && (k in data ==> r[k] == data[k])
    ensures ChatStartGiven(data) || !HelpersGiven(data) ==> r == data
    ensures !ChatStartGiven(data) && HelpersGiven(data) ==>
      ChatStart in r && r[ChatStart] == Int(data[ChatTimestamp].n - MillisOf(data[VideoTimestamp].micros))
  {
    if !ChatStartGiven(data) && HelpersGiven(data) then
      data[ChatStart := Int(Get(data, ChatTimestamp).n - MillisOf(Get(data, VideoTimestamp).micros))]
    else data
  }

  /** An explicit chat start always wins: both helpers are ignored. */
  lemma ExplicitChatStartWins(data: map<string, Value>, chat: Value, video: Value)
    requires WellTyped(data) && ChatStartGiven(data)
    requires (chat.Null? || chat.Int?) && (video.Null? || video.Duration?)
    ensures var d := data[ChatTimestamp := chat][VideoTimestamp := video];
      WellTyped(d) && DeriveChatStart(d)[ChatStart] == data[ChatStart]
  {
    var d := data[ChatTimestamp := chat][VideoTimestamp := video];
    assert Get(d, ChatStart) == Get(data, ChatStart);
  }

  /**
   * When derived, the chat start is the chat clock's reading at the start
   * of the video: the chat timestamp is the start plus the video position.
   */
  lemma DerivedStartAlignsChat(data: map<string, Value>)
    requires WellTyped(data) && !ChatStartGiven(data) && HelpersGiven(data)
    ensures DeriveChatStart(data)[ChatStart].Int?
    ensures DeriveChatStart(data)[ChatStart].n + MillisOf(data[VideoTimestamp].micros) == data[ChatTimestamp].n
  {
  }

  /** A missing or falsy helper (a zero timestamp, a zero duration) leaves `chat_start` missing. */
  lemma FalsyHelperLeavesChatStartMissing(data: map<string, Value>)
    requires WellTyped(data) && !ChatStartGiven(data)
    requires Get(data, ChatTimestamp) in {Null, Int(0)} || Get(data, VideoTimestamp) in {Null, Duration(0)}
    ensures !ChatStartGiven(DeriveChatStart(data))
    ensures ChatStart in DeriveChatStart(data) <==> ChatStart in data
  {
  }

  /** Cleaning twice is cleaning once: a derived start counts as given. */
  lemma DeriveIdempotent(data: map<string, Value>)
    requires WellTyped(data)
    ensures WellTyped(DeriveChatStart(data))
    ensures DeriveChatStart(DeriveChatStart(data)) == DeriveChatStart(data)
  {
    var r := DeriveChatStart(data);
    assert Get(r, ChatTimestamp) == Get(data, ChatTimestamp);
    assert Get(r, VideoTimestamp) == Get(data, VideoTimestamp);
    if !ChatStartGiven(data) && HelpersGiven(data) {
      assert ChatStartGiven(r);
    }
  }

  /** A chat line at 1576949556379 heard 19:19.001 into the video starts the chat at 1576948397378. */
  lemma DeriveExample()
    ensures var data := map[ChatStart := Null, ChatTimestamp := Int(1_576_949_556_379),
                            VideoTimestamp := Duration(1_159_001_000)];
      WellTyped(data) && DeriveChatStart(data)[ChatStart] == Int(1_576_948_397_378)
  {
  }

  /** `VideoForm`, holding the cleaned data of one submission. */
  class VideoForm {
    var cleanedData: map<string, Value>

    constructor(data: map<string, Value>)
      ensures cleanedData == data
    {
      cleanedData := data;
    }

    /** `clean`: fills in `chat_start` in place and returns the cleaned data. */
    method Clean() returns (r: map<string, Value>)
      requires WellTyped(cleanedData)
      modifies this
      ensures cleanedData == DeriveChatStart(old(cleanedData))
      ensures r == cleanedData
    {
      if Get(cleanedData, ChatStart) == Null {
        var chatTimestamp := Get(cleanedData, ChatTimestamp);
        var videoTimestamp := Get(cleanedData, VideoTimestamp);
        if Truthy(chatTimestamp) && Truthy(videoTimestamp) {
          var offset := MillisOf(videoTimestamp.micros);
          cleanedData := cleanedData[ChatStart := Int(chatTimestamp.n - offset)];
        }
      }
      r := cleanedData;
    }
  }
}
