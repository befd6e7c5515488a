/** The resumable stream writer of examples/tcp/tcp-large-transfer.cc. */
module TxStream {

  const TOTAL: nat := 2000000
  const WRITE_SIZE: nat := 1040

  function Letter(i: nat): char {
    'a' + (i % 26) as char
  }

  /** The first n bytes of a..z over and over. */
  function Stream(n: nat): (s: string)
    ensures |s| == n
  {
    seq(n, i requires 0 <= i => Letter(i))
  }

  /** The stream is the alphabet over and over. */
  lemma StreamIsAlphabet(n: nat, i: nat)
    requires i < n
    ensures Stream(n)[i] == "abcdefghijklmnopqrstuvwxyz"[i % 26]
  {
  }

  /** The transmit buffer is a whole number of alphabets, so a write that starts at any offset continues the stream. */
  lemma BufferContinuesStream(sent: nat, k: nat)
    ensures Letter(sent % WRITE_SIZE + k) == Letter(sent + k)
  {
    var q := sent / WRITE_SIZE;
    assert sent == q * WRITE_SIZE + sent % WRITE_SIZE;
    assert q * WRITE_SIZE == 26 * (40 * q);
    assert (26 * (40 * q) + (sent % WRITE_SIZE + k)) % 26 == (sent % WRITE_SIZE + k) % 26;
  }

  lemma WriteExtendsStream(sent: nat, n: nat)
    requires sent % WRITE_SIZE + n <= WRITE_SIZE
    ensures Stream(sent) + Stream(WRITE_SIZE)[sent % WRITE_SIZE..sent % WRITE_SIZE + n] == Stream(sent + n)
  {
    var piece := Stream(WRITE_SIZE)[sent % WRITE_SIZE..sent % WRITE_SIZE + n];
    forall k | 0 <= k < n ensures piece[k] == Stream(sent + n)[sent + k] {
      BufferContinuesStream(sent, k);
    }
  }

  lemma SliceOfSlice(s: string, offset: nat, n: nat, k: nat)
    requires offset + n <= |s| && k <= n
    ensures s[offset..offset + n][..k] == s[offset..offset + k]
  {
  }

  /** The socket as the writer sees it: how much room it reports and how much of a write it takes is up to the network. */
  class Socket {
    var accepted: string
    var closes: nat
    /** The last answer was "no room" or a refusal. */
    ghost var blocked: bool

    constructor ()
      ensures accepted == "" && closes == 0
    {
      accepted, closes, blocked := "", 0, false;
    }

    method GetTxAvailable() returns (room: nat)
      modifies this`blocked
      ensures blocked <==> room == 0
    {
      room := *;
      blocked := room == 0;
    }

    /** Takes some of the bytes, at least one, or refuses with a negative result. */
    method Send(bytes: string) returns (amount: int)
      requires bytes != ""
      modifies this`accepted, this`blocked
      ensures blocked <==> amount < 0
      ensures amount < 0 ==> accepted == old(accepted)
      ensures amount >= 0 ==> 1 <= amount <= |bytes| && accepted == old(accepted) + bytes[..amount]
    {
      amount := *;
      if 1 <= amount <= |bytes| {
        accepted := accepted + bytes[..amount];
      } else {
        amount := -1;
      }
      blocked := amount < 0;
    }

    method Close()
      modifies this`closes
      ensures closes == old(closes) + 1
    {
      closes := closes + 1;
    }
  }

  class Sender {
    const socket: Socket
    const data: array<char>
    var currentTxBytes: nat

    /** What was accepted is a prefix of the stream, and the socket was closed only once that prefix is all of it. */
    ghost predicate Valid()
      reads this, socket, data
    {
      && data[..] == Stream(WRITE_SIZE)
      && currentTxBytes <= TOTAL
      && socket.accepted == Stream(currentTxBytes)
      && (socket.closes > 0 ==> currentTxBytes == TOTAL)
    }

    /** Fills the buffer as main does. */
    constructor (socket: Socket)
      requires socket.accepted == "" && socket.closes == 0
      ensures Valid() && this.socket == socket && currentTxBytes == 0 && fresh(data)
    {
      this.socket := socket;
      var buffer := new char[WRITE_SIZE];
      for i := 0 to WRITE_SIZE
        invariant buffer[..i] == Stream(i)
      {
        buffer[i] := 'a' + (i % 26) as char;
      }
      data := buffer;
      currentTxBytes := 0;
      new;
      assert data[..] == data[..WRITE_SIZE];
    }

    /** One callback: keeps the stream going, gives up only when the socket does, and closes exactly when nothing
        is left to send. */
    method WriteUntilBufferFull()
      requires Valid()
      modifies this`currentTxBytes, socket
      ensures Valid()
      ensures old(socket.accepted) <= socket.accepted
      ensures currentTxBytes == TOTAL || socket.blocked
      ensures socket.closes == old(socket.closes) + if currentTxBytes == TOTAL then 1 else 0
    {
      hide Stream;
      var room := socket.GetTxAvailable();
      while currentTxBytes < TOTAL && room > 0
        invariant Valid() && socket.closes == old(socket.closes)
        invariant old(socket.accepted) <= socket.accepted && (room == 0 ==> socket.blocked)
        decreases TOTAL - currentTxBytes
      {
        var left := TOTAL - currentTxBytes;
        var dataOffset := currentTxBytes % WRITE_SIZE;
        var toWrite := WRITE_SIZE - dataOffset;
        toWrite := if toWrite < left then toWrite else left;
        toWrite := if toWrite < room then toWrite else room;
        var bytes := data[dataOffset..dataOffset + toWrite];
        assert bytes == data[..][dataOffset..dataOffset + toWrite];
        var amountSent := socket.Send(bytes);
        if amountSent < 0 {
          return;
        }
        SliceOfSlice(Stream(WRITE_SIZE), dataOffset, toWrite, amountSent);
        WriteExtendsStream(currentTxBytes, amountSent);
        currentTxBytes := currentTxBytes + amountSent;
        room := socket.GetTxAvailable();
      }
      if currentTxBytes >= TOTAL {
        socket.Close();
      }
    }

    /** StartFlow and then any number of further callbacks. */
    method Transfer(callbacks: nat)
      requires Valid()
      modifies this`currentTxBytes, socket
      ensures Valid() && old(socket.accepted) <= socket.accepted <= Stream(2000000)
      ensures if |socket.accepted| == 2000000 then socket.closes > 0 else socket.blocked && socket.closes == 0
    {
      WriteUntilBufferFull();
      for i := 0 to callbacks
        invariant Valid() && old(socket.accepted) <= socket.accepted
        invariant if currentTxBytes == TOTAL then socket.closes > 0 else socket.blocked
      {
        WriteUntilBufferFull();
      }
    }
  }
}
