/** Media messages as the queues behind the protocol see them. */
module Media {
  import opened Bytes

  datatype Kind = Audio | Video | Data

  /** `id` stands for the message's identity: it tells equal messages apart. */
  datatype MediaMessage = MediaMessage(kind: Kind, timestamp: int, payload: bytes, id: nat)
  {
    predicate IsAV() {
      kind.Audio? || kind.Video?
    }
  }

  /** FlvDemuxer::IsAudioSeqenceHeader: AAC, packet type 0 (muxer/flv.cpp:571-581, 615-631). */
  predicate IsAudioSequenceHeader(payload: bytes) {
    |payload| >= 2 && payload[0] / 16 == 10 && payload[1] == 0
  }

  /** FlvDemuxer::IsVideoSeqenceHeader: AVC key frame, packet type 0 (muxer/flv.cpp:559-569, 594-613). */
  predicate IsVideoSequenceHeader(payload: bytes) {
    |payload| >= 2 && payload[0] % 16 == 7 && payload[0] / 16 == 1 && payload[1] == 0
  }
}
