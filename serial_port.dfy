/**
 * The serial connection to the router console, reduced to what the capture
 * code observes: a log of the texts written to it, and the decoded lines the
 * device has answered with that are not read yet, taken one at a time. Once
 * they are used up every further read is a timeout and returns "".
 */
module SerialPort {

  class Port {
    /** Every text written to the wire so far, oldest first. */
    var sent: seq<string>
    /** The decoded lines the device has produced and nobody has read yet, in order. */
    var pending: seq<string>

    constructor (transcript: seq<string>)
      ensures pending == transcript && sent == []
    {
      pending := transcript;
      sent := [];
    }

    /** True once every line the device produced has been read. */
    predicate Exhausted()
      reads this
    {
      pending == []
    }

    /** Write one text to the wire. */
    method Write(text: string)
      modifies this`sent
      ensures sent == old(sent) + [text]
    {
      sent := sent + [text];
    }

    /** Read the next line, or "" (a timeout) when nothing is pending. */
    method ReadLine() returns (line: string)
      modifies this`pending
      ensures old(pending) != [] ==> line == old(pending)[0] && pending == old(pending)[1..]
      ensures old(pending) == [] ==> line == "" && pending == []
    {
      if pending != [] {
        line := pending[0];
        pending := pending[1..];
      } else {
        line := "";
      }
    }
  }
}
