/** Recovery run against a file whose operations may fail. */
module RecoveryRun {
  import opened Words
  import opened WalGeometry
  import opened WalScan
  import opened WalRecovery
  import opened PhysicalFile
  import opened Reader

  method TruncateAndSync(disk: Disk, size: u64) returns (ok: bool)
    requires disk.Valid()
    modifies disk`content, disk`synced, disk`syncCalls
    ensures disk.Valid()
    ensures disk.content == old(disk.content) || disk.content == Resized(old(disk.content), size)
    ensures ok ==> disk.present && disk.content == Resized(old(disk.content), size) && disk.synced == size
    ensures size > OFFSET_MAX ==> !ok && disk.content == old(disk.content)
    ensures disk.healthy && disk.present && size <= OFFSET_MAX ==> ok
  {
    if size > OFFSET_MAX {
      return false;
    }
    var found := disk.SystemOpen();
    if !found {
      return false;
    }
    var truncated := disk.SystemTruncate(size);
    if !truncated {
      return false;
    }
    ok := disk.SystemSync();
  }

  /**
   * Without faults this is `Recover`. With faults the file is still either
   * untouched or cut to exactly the trusted prefix of an incomplete tail, and
   * success is only reported for what `Recover` would have reported.
   */
  method RecoverIncompleteTail(disk: Disk, expected: WalConfig) returns (result: RecoveryResult)
    requires disk.Valid()
    modifies disk`content, disk`synced, disk`syncCalls, disk`interrupts
    ensures disk.Valid()
    ensures (disk.healthy && disk.present) || result.status != RecoveryIoError ==>
      Recovery(result, disk.content) == Recover(old(disk.content), expected)
    ensures disk.content == old(disk.content) || disk.content == Recover(old(disk.content), expected).file
    ensures result.status == RecoveryRecovered ==> disk.synced == |disk.content|
    ensures result.status == RecoveryIoError ==>
      || result == RecoveryResult(RecoveryIoError, IoError, 0, 0, 0, 0, 0, 0)
      || (result.originalSize == |old(disk.content)|
          && result.recoveredSize in {|old(disk.content)|, |Recover(old(disk.content), expected).file|}
          && result.removedBytes == result.originalSize - result.recoveredSize
          && result.records <= Scan(old(disk.content), expected).records)
  {
    hide Scan;
    ghost var file := disk.content;
    NeverIoError(file, expected);
    if Scan(file, expected).status == ScanIncompleteTail {
      TrustedPrefixRescans(file, expected);
    }
    var known, originalSize := disk.SystemSize();
    if !known {
      return RecoveryResult(RecoveryIoError, IoError, 0, 0, 0, 0, 0, 0);
    }
    var before := ScanWal(disk, expected);
    match before.status {
      case ScanClean =>
        return ResultFromScan(RecoveryClean, before, originalSize, originalSize);
      case ScanInvalidConfig =>
        return ResultFromScan(RecoveryInvalidConfig, before, originalSize, originalSize);
      case ScanCorrupted =>
        return ResultFromScan(RecoveryRefused, before, originalSize, originalSize);
      case ScanIoError =>
        return ResultFromScan(RecoveryIoError, before, originalSize, originalSize);
      case ScanIncompleteTail =>
    }
    if before.lastValidOffset > originalSize {
      return ResultFromScan(RecoveryIoError, before, originalSize, originalSize);
    }
    var truncated := TruncateAndSync(disk, before.lastValidOffset);
    if !truncated {
      var sized, currentSize := disk.SystemSize();
      return ResultFromScan(RecoveryIoError, before, originalSize, if sized then currentSize else originalSize);
    }
    var measured, recoveredSize := disk.SystemSize();
    if !measured {
      return ResultFromScan(RecoveryIoError, before, originalSize, before.lastValidOffset);
    }
    var after := ScanWal(disk, expected);
    if !Consistent(before, after, recoveredSize) {
      return ResultFromScan(RecoveryIoError, after, originalSize, recoveredSize);
    }
    result := ResultFromScan(RecoveryRecovered, after, originalSize, recoveredSize).(error := before.error);
  }
}
