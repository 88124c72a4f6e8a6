/** Why the receive loops can take some messages and not others. */
module Receive {
  import opened SizeClasses
  import opened Wire

  /** How far into a message the loop looks: the status, and on the VPS side the endpoint of a newSession. */
  function LooksAt(m: Message, handshake: bool): nat {
    if handshake && |m| >= STATUS_SIZE && Status(m) == NEW_SESSION then 10 else STATUS_SIZE
  }

  /** A message is received inside the area the pool gives for its size, and everything the loop
      looks at lies inside the message, exactly when the message is receivable. */
  lemma ReceivableExact(m: Message, handshake: bool)
    ensures Receivable(m, handshake) <==>
              |m| <= Capacity(ClassOf(|m|)) && LooksAt(m, handshake) <= |m|
  {
    ClassFits(|m|);
  }

  /** One byte more than the largest class serves: the area is that of the largest class all the
      same. From 2304 bytes on it is that of the smallest. */
  lemma TooLong(data: seq<byte>)
    requires |data| >= BUFFER_SIZE - STATUS_SIZE + 1
    ensures var m := EncodeNormal(data);
      !Receivable(m, true) && Capacity(ClassOf(|m|)) == if |m| < 2304 then 2048 else 256
  {
    Pow2Table();
    ClassTable(|EncodeNormal(data)|);
  }
}
