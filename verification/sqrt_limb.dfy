/** Square roots of one and of two limbs, by a table and Zimmermann's step. */
module SqrtLimb {
  import opened Arith
  import opened Limbs

  /** s is the integer square root of a and r what is left. */
  ghost predicate IsRoot(a: int, s: int, r: int) {
    a == s * s + r && 0 <= r <= 2 * s
  }

  /** The root and the remainder are determined by a. */
  lemma RootUnique(a: nat, s: nat, r: nat, s': nat, r': nat)
    requires IsRoot(a, s, r) && IsRoot(a, s', r')
    ensures s == s' && r == r'
  {
    CorrectedSquare(s + 1);
    CorrectedSquare(s' + 1);
    if s < s' {
      MulBounds(s + 1, s', s + 1, s');
    } else if s' < s {
      MulBounds(s' + 1, s, s' + 1, s);
    }
  }

  ghost predicate ByteRoot(i: nat, t: nat) {
    128 <= t && t * t <= 256 * (i + 64) < (t + 1) * (t + 1)
  }

  /** sqrt_table, indexed by the top byte less 64, in three parts. */
  function SqrtTable(i: nat): (t: nat)
    requires i < 192
    ensures ByteRoot(i, t)
  {
    if i < 64 then LowTable(i) else if i < 128 then MiddleTable(i) else HighTable(i)
  }

  function LowTable(i: nat): (t: nat)
    requires 0 <= i < 64
    ensures ByteRoot(i, t)
  {
    match i
    case 0 => 128 case 1 => 128 case 2 => 129 case 3 => 130 case 4 => 131 case 5 => 132 case 6 => 133 case 7 => 134
    case 8 => 135 case 9 => 136 case 10 => 137 case 11 => 138 case 12 => 139 case 13 => 140 case 14 => 141 case 15 => 142
    case 16 => 143 case 17 => 144 case 18 => 144 case 19 => 145 case 20 => 146 case 21 => 147 case 22 => 148 case 23 => 149
    case 24 => 150 case 25 => 150 case 26 => 151 case 27 => 152 case 28 => 153 case 29 => 154 case 30 => 155 case 31 => 155
    case 32 => 156 case 33 => 157 case 34 => 158 case 35 => 159 case 36 => 160 case 37 => 160 case 38 => 161 case 39 => 162
    case 40 => 163 case 41 => 163 case 42 => 164 case 43 => 165 case 44 => 166 case 45 => 167 case 46 => 167 case 47 => 168
    case 48 => 169 case 49 => 170 case 50 => 170 case 51 => 171 case 52 => 172 case 53 => 173 case 54 => 173 case 55 => 174
    case 56 => 175 case 57 => 176 case 58 => 176 case 59 => 177 case 60 => 178 case 61 => 178 case 62 => 179 case 63 => 180
  }

  function MiddleTable(i: nat): (t: nat)
    requires 64 <= i < 128
    ensures ByteRoot(i, t)
  {
    match i
    case 64 => 181 case 65 => 181 case 66 => 182 case 67 => 183 case 68 => 183 case 69 => 184 case 70 => 185 case 71 => 185
    case 72 => 186 case 73 => 187 case 74 => 187 case 75 => 188 case 76 => 189 case 77 => 189 case 78 => 190 case 79 => 191
    case 80 => 192 case 81 => 192 case 82 => 193 case 83 => 193 case 84 => 194 case 85 => 195 case 86 => 195 case 87 => 196
    case 88 => 197 case 89 => 197 case 90 => 198 case 91 => 199 case 92 => 199 case 93 => 200 case 94 => 201 case 95 => 201
    case 96 => 202 case 97 => 203 case 98 => 203 case 99 => 204 case 100 => 204 case 101 => 205 case 102 => 206 case 103 => 206
    case 104 => 207 case 105 => 208 case 106 => 208 case 107 => 209 case 108 => 209 case 109 => 210 case 110 => 211 case 111 => 211
    case 112 => 212 case 113 => 212 case 114 => 213 case 115 => 214 case 116 => 214 case 117 => 215 case 118 => 215 case 119 => 216
    case 120 => 217 case 121 => 217 case 122 => 218 case 123 => 218 case 124 => 219 case 125 => 219 case 126 => 220 case 127 => 221
  }

  function HighTable(i: nat): (t: nat)
    requires 128 <= i < 192
    ensures ByteRoot(i, t)
  {
    match i
    case 128 => 221 case 129 => 222 case 130 => 222 case 131 => 223 case 132 => 224 case 133 => 224 case 134 => 225 case 135 => 225
    case 136 => 226 case 137 => 226 case 138 => 227 case 139 => 227 case 140 => 228 case 141 => 229 case 142 => 229 case 143 => 230
    case 144 => 230 case 145 => 231 case 146 => 231 case 147 => 232 case 148 => 232 case 149 => 233 case 150 => 234 case 151 => 234
    case 152 => 235 case 153 => 235 case 154 => 236 case 155 => 236 case 156 => 237 case 157 => 237 case 158 => 238 case 159 => 238
    case 160 => 239 case 161 => 240 case 162 => 240 case 163 => 241 case 164 => 241 case 165 => 242 case 166 => 242 case 167 => 243
    case 168 => 243 case 169 => 244 case 170 => 244 case 171 => 245 case 172 => 245 case 173 => 246 case 174 => 246 case 175 => 247
    case 176 => 247 case 177 => 248 case 178 => 248 case 179 => 249 case 180 => 249 case 181 => 250 case 182 => 250 case 183 => 251
    case 184 => 251 case 185 => 252 case 186 => 252 case 187 => 253 case 188 => 253 case 189 => 254 case 190 => 254 case 191 => 255
  }

  /** The numbers of one Zimmermann step before its correction: hi = s1^2 + r1 is followed by two digits in base beta. */
  ghost predicate StepStart(s1: nat, r1: nat, mid: nat, lo: nat, beta: nat, q: nat, u: nat) {
    && r1 <= 2 * s1 && 0 < beta <= 2 * s1 && mid < beta && lo < beta
    && r1 * beta + mid == q * (2 * s1) + u && u < 2 * s1
  }

  ghost function Whole(s1: nat, r1: nat, mid: nat, lo: nat, beta: nat): nat {
    MulNonNeg(s1, s1); MulNonNeg(beta, beta); MulNonNeg(s1 * s1 + r1, beta * beta); MulNonNeg(mid, beta);
    (s1 * s1 + r1) * (beta * beta) + mid * beta + lo
  }

  lemma StepQuotient(s1: nat, r1: nat, mid: nat, lo: nat, beta: nat, q: nat, u: nat)
    requires StepStart(s1, r1, mid, lo, beta, q, u)
    ensures q <= beta
  {
    if q > beta {
      MulMono(beta + 1, q, 2 * s1);
      Distribute(beta, 1, 2 * s1);
      MulMono(r1, 2 * s1, beta);
    }
  }

  /** Without correction: s = s1 * beta + q and r = u * beta + lo - q^2 fit together; r may be negative. */
  lemma StepExact(s1: nat, r1: nat, mid: nat, lo: nat, beta: nat, q: nat, u: nat)
    requires StepStart(s1, r1, mid, lo, beta, q, u)
    ensures var s, r := s1 * beta + q, u * beta + lo - q * q;
            Whole(s1, r1, mid, lo, beta) == s * s + r && r <= 2 * s && (r < 0 ==> 0 <= r + 2 * s - 1 && 0 < s)
  {
    StepIdentity(s1, r1, mid, beta, q, u);
    StepBounds(s1, r1, mid, lo, beta, q, u);
  }

  lemma StepBounds(s1: nat, r1: nat, mid: nat, lo: nat, beta: nat, q: nat, u: nat)
    requires StepStart(s1, r1, mid, lo, beta, q, u)
    ensures var s, r := s1 * beta + q, u * beta + lo - q * q;
            r <= 2 * s && (r < 0 ==> 0 <= r + 2 * s - 1 && 0 < s)
  {
    StepQuotient(s1, r1, mid, lo, beta, q, u);
    ProductBounds(s1, lo, beta, q, u);
  }

  lemma ProductBounds(s1: nat, lo: nat, beta: nat, q: nat, u: nat)
    requires 0 < beta <= 2 * s1 && lo < beta && q <= beta && u < 2 * s1
    ensures 0 <= u * beta + lo < 2 * (s1 * beta) && 0 <= q * q <= 2 * (s1 * beta) && 0 < s1 * beta
  {
    MulBounds(u, 2 * s1 - 1, beta, beta);
    Distribute(2 * s1, 1, beta);
    MulAssoc(2, s1, beta);
    MulBounds(q, 2 * s1, q, beta);
    MulPos(s1, beta);
  }

  lemma StepIdentity(s1: int, r1: int, mid: int, beta: int, q: int, u: int)
    requires r1 * beta + mid == q * (2 * s1) + u
    ensures (s1 * s1 + r1) * (beta * beta) + mid * beta == (s1 * beta + q) * (s1 * beta + q) + u * beta - q * q
  {
    var num := r1 * beta + mid;
    assert num * beta == r1 * (beta * beta) + mid * beta by { Distribute(r1 * beta, mid, beta); MulAssoc(r1, beta, beta); }
    assert num * beta == (q * (2 * s1)) * beta + u * beta by { Distribute(q * (2 * s1), u, beta); }
    SquareOfSum(s1, beta, q);
    Distribute(s1 * s1, r1, beta * beta);
  }

  lemma SquareOfSum(s1: int, beta: int, q: int)
    ensures (s1 * beta + q) * (s1 * beta + q) == (s1 * s1) * (beta * beta) + (q * (2 * s1)) * beta + q * q
  {
  }

  method Divide(num: nat, d: nat) returns (q: nat, u: nat)
    requires 0 < d
    ensures num == q * d + u && u < d
  {
    q, u := num / d, num % d;
  }

  /** One step with its correction. */
  method Step(s1: nat, r1: nat, mid: nat, lo: nat, beta: nat) returns (s: nat, r: nat)
    requires r1 <= 2 * s1 && 0 < beta <= 2 * s1 && mid < beta && lo < beta
    ensures IsRoot(Whole(s1, r1, mid, lo, beta), s, r)
  {
    hide Whole;
    MulNonNeg(r1, beta);
    var q, u := Divide(r1 * beta + mid, 2 * s1);
    Corrected(s1, r1, mid, lo, beta, q, u);
    MulNonNeg(s1, beta);
    s := s1 * beta + q;
    var t: int := u * beta + lo - q * q;
    if t < 0 {
      s := s - 1;
      t := t + (2 * s + 1);
    }
    r := t;
  }

  lemma Corrected(s1: nat, r1: nat, mid: nat, lo: nat, beta: nat, q: nat, u: nat)
    requires StepStart(s1, r1, mid, lo, beta, q, u)
    ensures var a, s, r := Whole(s1, r1, mid, lo, beta), s1 * beta + q, u * beta + lo - q * q;
            if r < 0 then IsRoot(a, s - 1, r + (2 * (s - 1) + 1)) else IsRoot(a, s, r)
  {
    StepExact(s1, r1, mid, lo, beta, q, u);
    CorrectedSquare(s1 * beta + q);
  }

  lemma CorrectedSquare(s: int)
    ensures s * s == (s - 1) * (s - 1) + (2 * (s - 1) + 1)
  {
  }

  /** mp_sqrtrem1 */
  method Sqrtrem1(a: Limb) returns (s: nat, r: nat)
    requires 4 * (a as int) >= B
    ensures IsRoot(a, s, r)
  {
    hide IsRoot, Whole;
    var top: nat := if LIMB_BITS == 32 then a else a / 0x1_0000_0000;
    s, r := Sqrt32(top);
    if LIMB_BITS == 64 {
      var mid, lo := (a / 0x1_0000) % 0x1_0000, a % 0x1_0000;
      RootHalf(top, s, r, 0x8000);
      Reassemble(s, r, top, mid, lo, 0x1_0000, a);
      s, r := Step(s, r, mid, lo, 0x1_0000);
    }
  }

  lemma Reassemble(s: nat, r: nat, hi: nat, mid: nat, lo: nat, beta: nat, a: nat)
    requires IsRoot(hi, s, r) && a == hi * (beta * beta) + mid * beta + lo
    ensures a == Whole(s, r, mid, lo, beta) && r <= 2 * s
  {
    assert hi * (beta * beta) == (s * s + r) * (beta * beta);
  }

  /** The first two stages: 16 bits by the table, then 32 bits by one step. */
  method Sqrt32(a: nat) returns (s: nat, r: nat)
    requires 0x4000_0000 <= a < 0x1_0000_0000
    ensures IsRoot(a, s, r)
  {
    hide IsRoot, Whole;
    var top := a / 0x1_0000;
    var mid, lo := (a / 0x100) % 0x100, a % 0x100;
    s, r := TableRoot(top);
    RootHalf(top, s, r, 0x80);
    Reassemble(s, r, top, mid, lo, 0x100, a);
    s, r := Step(s, r, mid, lo, 0x100);
  }

  method TableRoot(top: nat) returns (s: nat, r: nat)
    requires 0x4000 <= top < 0x1_0000
    ensures IsRoot(top, s, r)
  {
    hide SqrtTable, IsRoot;
    s := SqrtTable(top / 0x100 - 64);
    TableCorrection(top, s);
    r := top - s * s;
    if r > 2 * s {
      r := r - (2 * s + 1);
      s := s + 1;
    }
  }

  lemma TableCorrection(top: nat, t: nat)
    requires top < 0x1_0000 && 128 <= t && t * t <= 256 * (top / 256) < (t + 1) * (t + 1)
    ensures t * t <= top
    ensures top - t * t > 2 * t ==> IsRoot(top, t + 1, top - t * t - (2 * t + 1))
    ensures top - t * t <= 2 * t ==> IsRoot(top, t, top - t * t)
  {
    assert (t + 1) * (t + 1) == t * t + 2 * t + 1;
  }

  /** The root of a number with its top two bits not both clear has its own top bit set. */
  lemma RootHalf(a: nat, s: nat, r: nat, half: nat)
    requires IsRoot(a, s, r) && half * half <= a
    ensures half <= s
  {
    CorrectedSquare(s + 1);
    if s < half {
      MulBounds(s + 1, half, s + 1, half);
    }
  }
}
