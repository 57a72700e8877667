/** The value types the server and the web client share. */
module SharedTypes {

  /** A prompt's reading difficulty. */
  datatype Difficulty = Easy | Medium | Hard {
    /** The wire form: `'easy' | 'medium' | 'hard'`. */
    function Name(): string {
      match this
      case Easy => "easy"
      case Medium => "medium"
      case Hard => "hard"
    }
  }

  /** The verdict an upload answers with. */
  datatype UploadStatus = Success | ClippingDetected | TooQuiet {
    /** The wire form: `'success' | 'clipping_detected' | 'too_quiet'`. */
    function Name(): string {
      match this
      case Success => "success"
      case ClippingDetected => "clipping_detected"
      case TooQuiet => "too_quiet"
    }
  }

  /** A generated candidate's review state. */
  datatype CandidateStatus = Pending | Approved | Rejected {
    function Name(): string {
      match this
      case Pending => "pending"
      case Approved => "approved"
      case Rejected => "rejected"
    }
  }
}
