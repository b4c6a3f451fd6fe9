/** The authentication module (drivers/auth/auth_mod.c): DER counters, the list of authentication methods of
    an image, roll-back protection and the flags of authenticated images.

    Results of parsing and cryptography are inputs of a verification. */
module AuthMod {
  import opened Bits
  import opened Bytes
  import opened Common

  const ASN1_INTEGER: nat := 0x02

  // ----- Counters in DER -----

  /** The number written in base 256, most significant byte first. */
  function BigEndian(s: seq<byte>): nat {
    if s == [] then 0 else 256 * BigEndian(s[..|s| - 1]) + s[|s| - 1]
  }

  /** The content octets of a non-negative INTEGER (section 8.3 of ITU-T X.690): two's complement in the fewest
      bytes. */
  function Content(v: nat): (s: seq<byte>)
    ensures s != [] && s[0] < 0x80
  {
    if v < 0x80 then [v] else Content(v / 256) + [v % 256]
  }

  function EncodeDer(v: nat): seq<byte>
    requires |Content(v)| < 0x80
  {
    [ASN1_INTEGER, |Content(v)|] + Content(v)
  }

  /** What the parser takes for a counter. */
  predicate IsCounter(data: seq<byte>) {
    3 <= |data| <= 6 && data[0] == ASN1_INTEGER && data[1] == |data| - 2 && data[2] < 0x80
  }

  /** The parsing part of auth_nvctr: the loop shifts the bytes into an unsigned 32-bit value. */
  method ParseCounter(data: seq<byte>) returns (r: Option<nat>)
    ensures r == if IsCounter(data) then Some(BigEndian(data[2..])) else None
  {
    if |data| < 3 || data[0] != ASN1_INTEGER { return None; }
    var len := data[1];
    if len > 4 || |data| - 2 != len { return None; }
    if data[2] >= 0x80 { return None; }
    var ctr, i := 0, 0;
    while i < len
      invariant 0 <= i <= len
      invariant ctr == BigEndian(data[2..2 + i]) && BoundedBy(ctr, i)
    {
      assert data[2..2 + i + 1][..i] == data[2..2 + i];
      ctr := (ctr * 256 + data[2 + i]) % U32;
      i := i + 1;
    }
    assert data[2..2 + i] == data[2..];
    return Some(ctr);
  }

  /** A number of `i` bytes, the first below 0x80. */
  ghost predicate BoundedBy(ctr: nat, i: nat) {
    match i
    case 0 => ctr == 0
    case 1 => ctr < 0x80
    case 2 => ctr < 0x8000
    case 3 => ctr < 0x80_0000
    case 4 => ctr < 0x8000_0000
    case _ => true
  }

  /** Accepted counters have at most 31 bits. */
  lemma CounterBound(data: seq<byte>)
    requires IsCounter(data)
    ensures BigEndian(data[2..]) < 0x8000_0000
  {
    var s := data[2..];
    BigEndianBound(s);
  }

  lemma {:induction false} BigEndianBound(s: seq<byte>)
    requires 1 <= |s| <= 4 && s[0] < 0x80
    ensures BoundedBy(BigEndian(s), |s|)
    decreases |s|
  {
    if |s| > 1 {
      BigEndianBound(s[..|s| - 1]);
    } else {
      assert s[..0] == [];
    }
  }

  lemma {:induction false} ContentValue(v: nat)
    ensures BigEndian(Content(v)) == v
  {
    if v < 0x80 {
      assert [v][..0] == [];
    } else {
      ContentValue(v / 256);
      var s := Content(v / 256) + [v % 256];
      assert s[..|s| - 1] == Content(v / 256);
    }
  }

  lemma ContentLength(v: nat)
    requires v < 0x8000_0000
    ensures |Content(v)| <= 4
  {
    assert v / 256 < 0x80_0000;
    assert v / 256 / 256 < 0x8000;
    assert v / 256 / 256 / 256 < 0x80;
    assert |Content(v / 256 / 256 / 256)| == 1;
    assert |Content(v / 256 / 256)| <= 2;
    assert |Content(v / 256)| <= 3;
  }

  /** The parser inverts the encoder on all counters of 31 bits. */
  lemma RoundTrip(v: nat)
    requires v < 0x8000_0000
    ensures |Content(v)| < 0x80 && IsCounter(EncodeDer(v)) && BigEndian(EncodeDer(v)[2..]) == v
  {
    ContentLength(v);
    ContentValue(v);
    assert EncodeDer(v)[2..] == Content(v);
  }

  /** The encoder is minimal: no accepted encoding of the same counter is shorter. */
  lemma {:induction false} EncoderMinimal(s: seq<byte>)
    requires s != [] && s[0] < 0x80
    ensures |Content(BigEndian(s))| <= |s|
    decreases |s|
  {
    var v := BigEndian(s);
    if |s| > 1 {
      EncoderMinimal(s[..|s| - 1]);
      assert v / 256 == BigEndian(s[..|s| - 1]);
    } else {
      assert s[..0] == [];
    }
  }

  // ----- Verification of an image -----

  /** An entry of `img_auth_methods`, with what parsing and cryptography say about it.  A counter names the
      platform counter it is checked against and the bytes extracted from the image. */
  datatype Method =
    | NoMethod
    | Hash(ok: bool)
    | Signature(ok: bool)
    | NvCounter(counter: nat, extracted: Option<seq<byte>>)
    | Unknown

  /** An entry of `authenticated_data`. */
  datatype Parameter = Parameter(extracted: bool, fits: bool)

  datatype Image = Image(id: nat, intact: bool, methods: Option<seq<Method>>, trialRun: bool, counterWritable: bool,
                         parameters: seq<Parameter>)

  /** Platform counters and flags of authenticated images. */
  datatype Auth = Auth(counters: map<nat, nat>, authenticated: set<nat>)

  /** The locals of auth_mod_verify_img: the last counter seen, whether one needs an upgrade, whether a
      signature was checked. */
  datatype Progress = Progress(value: nat, upgrade: bool, signed: bool, counter: nat)

  function CounterValue(m: Method): Option<nat>
    requires m.NvCounter?
  {
    if m.extracted.Some? && IsCounter(m.extracted.value) then Some(BigEndian(m.extracted.value[2..])) else None
  }

  /** One round of the switch over the method type. */
  function CheckMethod(counters: map<nat, nat>, m: Method, trialRun: bool, p: Progress): Option<Progress> {
    match m
    case NoMethod => Some(p)
    case Hash(ok) => if ok then Some(p) else None
    case Signature(ok) => if ok then Some(p.(signed := true)) else None
    case NvCounter(c, _) =>
      (match CounterValue(m)
       case None => None
       case Some(v) =>
         if c !in counters || v < counters[c] then None
         else Some(p.(value := v, counter := c, upgrade := if v > counters[c] then !trialRun else p.upgrade)))
    case Unknown => None
  }

  function CheckMethods(counters: map<nat, nat>, methods: seq<Method>, trialRun: bool, p: Progress): Option<Progress>
    decreases |methods|
  {
    if methods == [] then Some(p)
    else match CheckMethod(counters, methods[0], trialRun, p)
         case None => None
         case Some(p') => CheckMethods(counters, methods[1..], trialRun, p')
  }

  const START: Progress := Progress(0, false, false, 0)

  /** auth_mod_verify_img */
  function Verify(a: Auth, img: Image): (bool, Auth) {
    if !img.intact || img.methods.None? then (false, a)
    else match CheckMethods(a.counters, img.methods.value, img.trialRun, START)
         case None => (false, a)
         case Some(p) =>
           if p.upgrade && p.signed && !img.counterWritable then (false, a)
           else
             var a' := if p.upgrade && p.signed then a.(counters := a.counters[p.counter := p.value]) else a;
             if exists i :: 0 <= i < |img.parameters| && !(img.parameters[i].extracted && img.parameters[i].fits)
             then (false, a')
             else (true, a'.(authenticated := a'.authenticated + {img.id}))
  }

  /** The module in the form of the source. */
  class AuthModule {
    var counters: map<nat, nat>
    var authenticated: set<nat>

    constructor (counters: map<nat, nat>)
      ensures View() == Auth(counters, {})
    {
      this.counters, authenticated := counters, {};
    }

    ghost function View(): Auth reads this { Auth(counters, authenticated) }

    /** auth_mod_verify_img */
    method VerifyImg(img: Image) returns (ok: bool)
      modifies this
      ensures (ok, View()) == Verify(old(View()), img)
    {
      if !img.intact { return false; }
      if img.methods.None? { return false; }
      var methods, p, i := img.methods.value, START, 0;
      while i < |methods|
        invariant 0 <= i <= |methods| && View() == old(View())
        invariant CheckMethods(counters, methods, img.trialRun, START) ==
                  CheckMethods(counters, methods[i..], img.trialRun, p)
      {
        var next := CheckMethod(counters, methods[i], img.trialRun, p);
        assert methods[i..][1..] == methods[i + 1..];
        if next.None? { return false; }
        p := next.value;
        i := i + 1;
      }
      if p.upgrade && p.signed {
        if !img.counterWritable { return false; }
        counters := counters[p.counter := p.value];
      }
      i := 0;
      while i < |img.parameters|
        invariant 0 <= i <= |img.parameters|
        invariant forall j :: 0 <= j < i ==> img.parameters[j].extracted && img.parameters[j].fits
      {
        if !img.parameters[i].extracted { return false; }
        if !img.parameters[i].fits { return false; }
        i := i + 1;
      }
      authenticated := authenticated + {img.id};
      return true;
    }
  }

  // ----- What a verification guarantees -----

  /** The method lets the image pass, against these counters. */
  ghost predicate Passes(counters: map<nat, nat>, m: Method) {
    match m
    case NoMethod => true
    case Hash(ok) => ok
    case Signature(ok) => ok
    case NvCounter(c, _) => CounterValue(m).Some? && c in counters && CounterValue(m).value >= counters[c]
    case Unknown => false
  }

  ghost predicate Signed(methods: seq<Method>) { Signature(true) in methods }

  /** Every method lets the image pass. */
  ghost predicate AllPass(counters: map<nat, nat>, methods: seq<Method>) {
    forall i :: 0 <= i < |methods| ==> Passes(counters, methods[i])
  }

  /** A counter of the image is ahead of the platform. */
  ghost predicate Ahead(counters: map<nat, nat>, m: Method) {
    m.NvCounter? && CounterValue(m).Some? && m.counter in counters && CounterValue(m).value > counters[m.counter]
  }

  ghost predicate SomeAhead(counters: map<nat, nat>, methods: seq<Method>) {
    exists i :: 0 <= i < |methods| && Ahead(counters, methods[i])
  }

  /** The loop gets to its end exactly if all methods pass.  Then `signed` says whether a signature was among them and
      `upgrade` whether a counter was ahead, outside a trial run. */
  lemma {:induction false} MethodsPass(counters: map<nat, nat>, methods: seq<Method>, trialRun: bool, p: Progress)
    requires p.upgrade ==> !trialRun
    ensures CheckMethods(counters, methods, trialRun, p).Some? <==> AllPass(counters, methods)
    ensures AllPass(counters, methods) ==>
              var q := CheckMethods(counters, methods, trialRun, p).value;
              && (q.signed <==> p.signed || Signed(methods))
              && (q.upgrade <==> p.upgrade || (!trialRun && SomeAhead(counters, methods)))
    decreases |methods|
  {
    if methods != [] {
      var m, rest := methods[0], methods[1..];
      FirstMethod(counters, methods);
      if Passes(counters, m) {
        MethodsPass(counters, rest, trialRun, CheckMethod(counters, m, trialRun, p).value);
      }
    }
  }

  lemma FirstMethod(counters: map<nat, nat>, methods: seq<Method>)
    requires methods != []
    ensures AllPass(counters, methods) <==> Passes(counters, methods[0]) && AllPass(counters, methods[1..])
    ensures SomeAhead(counters, methods) <==> Ahead(counters, methods[0]) || SomeAhead(counters, methods[1..])
    ensures Signed(methods) <==> methods[0] == Signature(true) || Signed(methods[1..])
  {
    var rest := methods[1..];
    assert methods == [methods[0]] + rest;
    assert forall i :: 0 < i < |methods| ==> methods[i] == rest[i - 1];
    assert forall i :: 0 <= i < |rest| ==> rest[i] == methods[i + 1];
  }

  ghost predicate AllKept(parameters: seq<Parameter>) {
    forall i :: 0 <= i < |parameters| ==> parameters[i].extracted && parameters[i].fits
  }

  /** All methods let the image pass, */
  ghost predicate Genuine(a: Auth, img: Image) {
    img.intact && img.methods.Some? && AllPass(a.counters, img.methods.value)
  }

  /** and it is signed and ahead of a counter of the platform, outside a trial run. */
  ghost predicate UpgradeDue(a: Auth, img: Image) {
    Genuine(a, img) && !img.trialRun && Signed(img.methods.value) && SomeAhead(a.counters, img.methods.value)
  }

  /** An image is accepted if and only if it is intact, has methods, all of them pass, a counter that is to be upgraded
      can be written, and all its parameters can be kept.  Exactly then its flag is set, and no other flag changes. */
  lemma AcceptedExactly(a: Auth, img: Image)
    ensures Verify(a, img).0 <==>
            Genuine(a, img) && (UpgradeDue(a, img) ==> img.counterWritable) && AllKept(img.parameters)
    ensures Verify(a, img).1.authenticated ==
            if Verify(a, img).0 then a.authenticated + {img.id} else a.authenticated
  {
    if img.intact && img.methods.Some? { MethodsPass(a.counters, img.methods.value, img.trialRun, START); }
  }

  /** A platform counter is written exactly if an upgrade is due and it can be: then the one of the last counter method
      is at the value of the image and no other has moved. */
  lemma CountersExactly(a: Auth, img: Image)
    ensures !(UpgradeDue(a, img) && img.counterWritable) ==> Verify(a, img).1.counters == a.counters
    ensures UpgradeDue(a, img) && img.counterWritable ==>
              exists k: nat :: LastCounter(img.methods.value, k) && RaisedTo(a, img, k)
  {
    if img.intact && img.methods.Some? {
      var methods := img.methods.value;
      MethodsPass(a.counters, methods, img.trialRun, START);
      if UpgradeDue(a, img) && img.counterWritable {
        var i :| 0 <= i < |methods| && Ahead(a.counters, methods[i]);
        var k := SomeLastCounter(methods, i);
        LastCounterCounts(a.counters, methods, img.trialRun, START, k);
        assert RaisedTo(a, img, k);
      }
    }
  }

  /** Verification leaves the counter of method `k` at the value of the image, and the others where they were. */
  ghost predicate RaisedTo(a: Auth, img: Image, k: nat) {
    && img.methods.Some? && k < |img.methods.value|
    && var m := img.methods.value[k];
       && m.NvCounter? && CounterValue(m).Some? && m.counter in a.counters
       && Verify(a, img).1.counters == a.counters[m.counter := CounterValue(m).value]
  }

  lemma {:induction false} SomeLastCounter(methods: seq<Method>, i: nat) returns (k: nat)
    requires i < |methods| && methods[i].NvCounter?
    ensures i <= k && LastCounter(methods, k)
    decreases |methods| - i
  {
    if j :| i < j < |methods| && methods[j].NvCounter? {
      k := SomeLastCounter(methods, j);
    } else {
      k := i;
    }
  }

  /** A platform counter never goes back, and it moves only for an image all of whose methods passed, a
      signature among them, outside a trial run. */
  lemma CountersOnlyAdvance(a: Auth, img: Image)
    ensures var a' := Verify(a, img).1;
            && a'.counters.Keys == a.counters.Keys
            && (forall c :: c in a.counters ==> a'.counters[c] >= a.counters[c])
            && (a'.counters != a.counters ==> UpgradeDue(a, img) && img.counterWritable)
  {
    CountersExactly(a, img);
    if UpgradeDue(a, img) && img.counterWritable {
      var k: nat :| LastCounter(img.methods.value, k) && RaisedTo(a, img, k);
      assert Passes(a.counters, img.methods.value[k]);
    }
  }

  // ----- Roll-back protection over runs -----

  function VerifyAll(a: Auth, imgs: seq<Image>): Auth
    decreases |imgs|
  {
    if imgs == [] then a else VerifyAll(Verify(a, imgs[0]).1, imgs[1..])
  }

  /** Over every sequence of verifications no counter decreases. */
  lemma {:induction false} RunsOnlyAdvance(a: Auth, imgs: seq<Image>, c: nat)
    requires c in a.counters
    ensures c in VerifyAll(a, imgs).counters && VerifyAll(a, imgs).counters[c] >= a.counters[c]
    decreases |imgs|
  {
    if imgs != [] {
      CountersOnlyAdvance(a, imgs[0]);
      RunsOnlyAdvance(Verify(a, imgs[0]).1, imgs[1..], c);
    }
  }

  /** The method at position `k` is the last counter among the methods. */
  ghost predicate LastCounter(methods: seq<Method>, k: nat) {
    && k < |methods| && methods[k].NvCounter?
    && forall i :: k < i < |methods| ==> !methods[i].NvCounter?
  }

  /** The loop ends with the value of the last counter, and asks for an upgrade if that one is ahead. */
  lemma {:induction false} LastCounterCounts(counters: map<nat, nat>, methods: seq<Method>, trialRun: bool,
                                             p: Progress, k: nat)
    requires CheckMethods(counters, methods, trialRun, p).Some? && LastCounter(methods, k) && !trialRun
    ensures CounterValue(methods[k]).Some? && methods[k].counter in counters
    ensures var q, v := CheckMethods(counters, methods, trialRun, p).value, CounterValue(methods[k]).value;
            q.counter == methods[k].counter && q.value == v && (v > counters[methods[k].counter] ==> q.upgrade)
    decreases |methods|
  {
    var p' := CheckMethod(counters, methods[0], trialRun, p).value;
    if k == 0 {
      NoCounterLeft(counters, methods[1..], trialRun, p');
    } else {
      LastCounterCounts(counters, methods[1..], trialRun, p', k - 1);
    }
  }

  lemma {:induction false} NoCounterLeft(counters: map<nat, nat>, methods: seq<Method>, trialRun: bool, p: Progress)
    requires CheckMethods(counters, methods, trialRun, p).Some?
    requires forall i :: 0 <= i < |methods| ==> !methods[i].NvCounter?
    ensures var q := CheckMethods(counters, methods, trialRun, p).value;
            q.counter == p.counter && q.value == p.value && q.upgrade == p.upgrade
    decreases |methods|
  {
    if methods != [] {
      NoCounterLeft(counters, methods[1..], trialRun, CheckMethod(counters, methods[0], trialRun, p).value);
    }
  }

  /** After a signed image is accepted outside a trial run, the platform counter of its last counter method is
      at the value of the image, and no other counter has moved: of several counters only the last counts. */
  lemma AcceptedRaises(a: Auth, img: Image, k: nat)
    requires Verify(a, img).0 && !img.trialRun
    requires img.methods.Some? && LastCounter(img.methods.value, k) && Signed(img.methods.value)
    ensures var m := img.methods.value[k];
            && CounterValue(m).Some? && m.counter in Verify(a, img).1.counters
            && Verify(a, img).1.counters == a.counters[m.counter := CounterValue(m).value]
  {
    MethodsPass(a.counters, img.methods.value, img.trialRun, START);
    LastCounterCounts(a.counters, img.methods.value, img.trialRun, START, k);
  }

  /** What the image says of the counters it is checked against: method `i` is a counter with this value. */
  ghost predicate Claims(methods: seq<Method>, i: nat, c: nat, v: nat) {
    i < |methods| && methods[i].NvCounter? && methods[i].counter == c && CounterValue(methods[i]) == Some(v)
  }

  /** All platform counters named by the image are at least at the values it gives. */
  ghost predicate CaughtUp(counters: map<nat, nat>, methods: seq<Method>) {
    forall i: nat, c: nat, v: nat :: Claims(methods, i, c, v) ==> c in counters && counters[c] >= v
  }

  /** Every counter of the image is on the platform's value already, or is the last one once more with a value not
      above. */
  ghost predicate OnlyLastAhead(counters: map<nat, nat>, methods: seq<Method>, k: nat)
    requires LastCounter(methods, k)
  {
    forall i: nat, c: nat, v: nat :: Claims(methods, i, c, v) ==>
      || (c in counters && v == counters[c])
      || (c == methods[k].counter && CounterValue(methods[k]).Some? && v <= CounterValue(methods[k]).value)
  }

  /** Accepting a signed image brings all platform counters it names up to its values if and only if no counter but
      the last is ahead of the platform. */
  lemma CaughtUpExactly(a: Auth, img: Image, k: nat)
    requires Verify(a, img).0 && !img.trialRun
    requires img.methods.Some? && LastCounter(img.methods.value, k) && Signed(img.methods.value)
    ensures CaughtUp(Verify(a, img).1.counters, img.methods.value) <==> OnlyLastAhead(a.counters, img.methods.value, k)
  {
    var methods, after := img.methods.value, Verify(a, img).1.counters;
    var last := methods[k].counter;
    AcceptedRaises(a, img, k);
    AcceptedExactly(a, img);
    forall i: nat, c: nat, v: nat | Claims(methods, i, c, v)
      ensures c in a.counters && v >= a.counters[c] && c in after
      ensures after[c] == if c == last then CounterValue(methods[k]).value else a.counters[c]
    {
      assert Passes(a.counters, methods[i]);
    }
  }

  /** An image with two counters, accepted: the first, which is ahead, does not move. */
  lemma FirstCounterStays() returns (a: Auth, img: Image)
    ensures Verify(a, img).0 && !img.trialRun && a.counters == map[0 := 1, 1 := 1]
    ensures img.methods == Some([Signature(true), NvCounter(0, Some([2, 1, 5])), NvCounter(1, Some([2, 1, 3]))])
    ensures Verify(a, img).1.counters == map[0 := 1, 1 := 3]
  {
    var m0, m1, m2 := Signature(true), NvCounter(0, Some([2, 1, 5])), NvCounter(1, Some([2, 1, 3]));
    a := Auth(map[0 := 1, 1 := 1], {});
    img := Image(0, true, Some([m0, m1, m2]), false, true, []);
    assert [2, 1, 5][2..] == [5] && [2, 1, 3][2..] == [3] && [5][..0] == [] && [3][..0] == [];
    assert BigEndian([5]) == 5 && BigEndian([3]) == 3;
    assert [m0, m1, m2][1..] == [m1, m2] && [m1, m2][1..] == [m2] && [m2][1..] == [];
    var p1 := START.(signed := true);
    var p2 := Progress(5, true, true, 0);
    var p3 := Progress(3, true, true, 1);
    assert CheckMethod(a.counters, m0, false, START) == Some(p1);
    assert CheckMethod(a.counters, m1, false, p1) == Some(p2);
    assert CheckMethod(a.counters, m2, false, p2) == Some(p3);
    assert CheckMethods(a.counters, [m2], false, p2) == Some(p3);
    assert CheckMethods(a.counters, [m1, m2], false, p1) == Some(p3);
  }

  /** No roll-back: whatever happens in between, an image accepted later against the same counter is not older
      than a signed image accepted before. */
  lemma NoRollback(a: Auth, first: Image, between: seq<Image>, later: Image, k: nat, n: nat)
    requires Verify(a, first).0 && !first.trialRun
    requires first.methods.Some? && LastCounter(first.methods.value, k) && Signed(first.methods.value)
    requires Verify(VerifyAll(Verify(a, first).1, between), later).0
    requires later.methods.Some? && n < |later.methods.value| && later.methods.value[n].NvCounter?
    requires later.methods.value[n].counter == first.methods.value[k].counter
    ensures CounterValue(first.methods.value[k]).Some? && CounterValue(later.methods.value[n]).Some?
    ensures CounterValue(later.methods.value[n]).value >= CounterValue(first.methods.value[k]).value
  {
    var a1 := Verify(a, first).1;
    var a2 := VerifyAll(a1, between);
    AcceptedRaises(a, first, k);
    RunsOnlyAdvance(a1, between, first.methods.value[k].counter);
    AcceptedExactly(a2, later);
    assert Passes(a2.counters, later.methods.value[n]);
  }
}
