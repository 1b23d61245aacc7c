/** The status-line queue of SpeechArchiveManager (uiMessageQueue): UpdateUI posts a
    time-stamped line and drops the oldest one when 50 are waiting; the display loop takes
    the oldest line when there is one. */
module NotificationQueue {
  import opened ArchiveTypes

  const MAX_UI_QUEUE_SIZE := 50

  /** The queued line: the capture time (HH:mm:ss) in brackets, a space, then the message. */
  function Stamped(timeOfDay: string, message: string): string
  {
    "[" + timeOfDay + "] " + message
  }

  /** The queue after UpdateUI: when full, the oldest line is dropped first; the new line goes last. */
  function Post(queue: seq<string>, line: string): seq<string>
  {
    (if |queue| >= MAX_UI_QUEUE_SIZE then queue[1..] else queue) + [line]
  }

  /** A post keeps the queue within 50 lines, puts the new line at the tail and, on a queue
      within the bound, keeps exactly the newest 50 lines: with 50 waiting, only the oldest goes. */
  lemma PostKeepsNewest(queue: seq<string>, line: string)
    requires |queue| <= MAX_UI_QUEUE_SIZE
    ensures |Post(queue, line)| <= MAX_UI_QUEUE_SIZE
    ensures Post(queue, line)[|Post(queue, line)| - 1] == line
    ensures Post(queue, line) == LastN(queue + [line], MAX_UI_QUEUE_SIZE)
  {
    var whole := queue + [line];
    if |queue| == MAX_UI_QUEUE_SIZE {
      assert LastN(whole, MAX_UI_QUEUE_SIZE) == whole[1..];
      assert queue[1..] + [line] == whole[1..];
    }
  }

  /** Lines posted one after the other, oldest first. */
  function PostAll(queue: seq<string>, lines: seq<string>): seq<string>
    decreases |lines|
  {
    if lines == [] then queue else PostAll(Post(queue, lines[0]), lines[1..])
  }

  /** After any run of posts the queue holds exactly the newest 50 (or fewer) of all lines,
      in the order they were posted. */
  lemma {:induction false} PostAllKeepsNewest(queue: seq<string>, lines: seq<string>)
    requires |queue| <= MAX_UI_QUEUE_SIZE
    ensures PostAll(queue, lines) == LastN(queue + lines, MAX_UI_QUEUE_SIZE)
    ensures |PostAll(queue, lines)| <= MAX_UI_QUEUE_SIZE
    decreases |lines|
  {
    if lines != [] {
      var whole, rest := queue + [lines[0]], lines[1..];
      var next := Post(queue, lines[0]);
      PostKeepsNewest(queue, lines[0]);
      PostAllKeepsNewest(next, rest);
      LastNOfAppend(whole, rest, MAX_UI_QUEUE_SIZE);
      ShiftFirst(queue, lines);
    }
  }
}
