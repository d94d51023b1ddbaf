/**
 * Which configurations protect the stored bytes (transport.py, put_file; adapter.py, _put and _delete): the
 * conditions are exact, given one request and bytes that do not pass for its payload.
 */
module Configurations {
  import opened Wrappers
  import opened Streams
  import opened Retention
  import opened Bucket
  import opened Publication
  import opened Interleaving
  import opened StoredBytes
  import opened Safekeeping
  import opened Limits
  import opened Races

  /** Without read-back a put that runs alone publishes whatever landed. */
  lemma LonePutMisleads(cfg: Config, versioned: bool, request: PutRequest, landed: bytes) returns (events: seq<Event>)
    requires cfg.Valid() && !cfg.verifyAfterWrite && PlainRequest(cfg, request, request.objectRef)
    requires !Good(cfg, landed, cfg.hash(request.payload), |request.payload|)
    ensures OnlyPuts(events, request)
    ensures Misled(cfg, Run(cfg, Initial(versioned), events).bucket,
                   Version(request.objectRef, cfg.hash(request.payload)), landed, |request.payload|)
  {
    hide Run, PlainRequest, Good, Current, FromRequest, Apply, PutStep, Bucket.WriteBlob, OrderlyIds, Misled;
    var k, t := Version(request.objectRef, cfg.hash(request.payload)), StartPut(cfg, request);
    var io := IO(1, landed, None);
    PlainStarts(cfg, request);
    NoIds(versioned);
    NothingAtFirst(versioned, k);
    var first := BeginsAtUpload(cfg, Initial(versioned), request, io);
    var w1 := Run(cfg, Initial(versioned), first);
    StepAt(cfg, w1, 0, io);
    NothingBlocks(cfg, w1.bucket, t.At(Upload));
    UploadStep(cfg, w1.bucket, t.At(Upload), io);
    UploadLands(cfg, w1.bucket, k, Blob(landed, k.digest));
    UploadEffect(w1.bucket, k, Blob(landed, k.digest));
    AfterEvent(cfg, Initial(versioned), first, w1, Step(0, io));
    var w2 := Apply(cfg, w1, Step(0, io));
    var rest := ReferAndMove(cfg, w2, 0);
    RunAppend(cfg, Initial(versioned), first + [Step(0, io)], rest);
    WrongBytesMislead(cfg, Run(cfg, w2, rest).bucket, k, landed, |request.payload|);
    events := first + [Step(0, io)] + rest;
  }

  lemma NothingBlocks(cfg: Config, b: Bucket, t: PutTask)
    requires StackOf(b.blobs, t.Key(cfg)) == []
    ensures !Blocked(cfg, b, t)
  {
  }

  lemma MisledIsNotHeld(cfg: Config, b: Bucket, k: Version, landed: bytes, length: nat)
    requires Misled(cfg, b, k, landed, length)
    ensures !RecordsGoodOrGone(cfg, b) && !BytesHold(cfg, b) && (|landed| == length ==> !StatsIntact(cfg, b))
  {
    hide Good, StackOf, Find;
    var envelope := Current(b.references, k).value.value;
    assert !Intact(cfg, b, k, envelope.blobVersion, envelope.metadata.length);
    if |landed| == length {
      StatReadsRecord(b, k.objectRef, None);
    }
  }

  /**
   * Exactly when every run of puts and deletes leaves records with right bytes or none, and stats that answer
   * for right bytes only: when uploads are read back and the bucket keeps versions.
   */
  lemma RightOrGoneIff(cfg: Config, versioned: bool, request: PutRequest, landed: bytes)
    requires cfg.Valid() && PlainRequest(cfg, request, request.objectRef) && request.retention.None?
    requires !Good(cfg, landed, cfg.hash(request.payload), |request.payload|)
    ensures cfg.verifyAfterWrite && versioned <==>
            forall events :: RecordsGoodOrGone(cfg, Run(cfg, Initial(versioned), events).bucket)
    ensures |landed| == |request.payload| ==>
              (cfg.verifyAfterWrite && versioned <==>
               forall events :: StatsIntact(cfg, Run(cfg, Initial(versioned), events).bucket))
  {
    hide Run, Misled, RecordsGoodOrGone, StatsIntact, PlainRequest, Good;
    var k := Version(request.objectRef, cfg.hash(request.payload));
    if cfg.verifyAfterWrite && versioned {
      forall events
        ensures RecordsGoodOrGone(cfg, Run(cfg, Initial(versioned), events).bucket)
                && StatsIntact(cfg, Run(cfg, Initial(versioned), events).bucket)
      {
        ReadBackIsSincere(cfg, Initial(true), events);
        StatNamesRightBytes(cfg, events);
      }
    } else {
      var events;
      if cfg.verifyAfterWrite {
        var i;
        events, i := StaleDropBreaksRecord(cfg, request, landed);
      } else {
        events := LonePutMisleads(cfg, versioned, request, landed);
      }
      MisledIsNotHeld(cfg, Run(cfg, Initial(versioned), events).bucket, k, landed, |request.payload|);
    }
  }

  /** No put of the run carries more than `n` bytes. */
  ghost predicate UpTo(n: nat, events: seq<Event>) {
    forall e | e in events && e.BeginPut? :: |e.request.payload| <= n
  }

  /**
   * Exactly when every delete-free run with payloads up to a given size leaves each record its bytes: when
   * uploads are read back, and the bucket keeps versions or payloads of that size stay below the multipart
   * threshold.
   */
  lemma BytesHoldIff(cfg: Config, versioned: bool, request: PutRequest, landed: bytes)
    requires cfg.Valid() && PlainRequest(cfg, request, request.objectRef)
    requires !Good(cfg, landed, cfg.hash(request.payload), |request.payload|)
    ensures cfg.verifyAfterWrite && (versioned || |request.payload| < cfg.multipartThreshold) <==>
            forall events | DeleteFree(events) && UpTo(|request.payload|, events) ::
              BytesHold(cfg, Run(cfg, Initial(versioned), events).bucket)
  {
    hide Run, Misled, BytesHold, PlainRequest, Good;
    var k := Version(request.objectRef, cfg.hash(request.payload));
    if cfg.verifyAfterWrite && (versioned || |request.payload| < cfg.multipartThreshold) {
      forall events | DeleteFree(events) && UpTo(|request.payload|, events)
        ensures BytesHold(cfg, Run(cfg, Initial(versioned), events).bucket)
      {
        if !versioned {
          UpToIsSmall(cfg, |request.payload|, events);
        }
        ReadBackSuffices(cfg, versioned, events);
      }
    } else {
      var events;
      if cfg.verifyAfterWrite {
        events := OverwriteBreaksPointer(cfg, request, landed);
      } else {
        events := LonePutMisleads(cfg, versioned, request, landed);
      }
      MisledIsNotHeld(cfg, Run(cfg, Initial(versioned), events).bucket, k, landed, |request.payload|);
      OnlyPutsUpTo(events, request);
    }
  }

  lemma {:induction false} UpToIsSmall(cfg: Config, n: nat, events: seq<Event>)
    requires UpTo(n, events) && n < cfg.multipartThreshold
    ensures SmallPuts(cfg, events)
  {
    assert forall i | 0 <= i < |events| :: events[i] in events;
  }

  lemma {:induction false} OnlyPutsUpTo(events: seq<Event>, request: PutRequest)
    requires OnlyPuts(events, request)
    ensures DeleteFree(events) && UpTo(|request.payload|, events)
  {
    assert forall i | 0 <= i < |events| :: events[i] in events;
  }
}
